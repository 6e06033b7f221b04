/** How constants are written as RDF terms, and which values that confuses.

    Property values and the constants of a WHERE clause are written alike, and
    SPARQL matches terms, not values.  So an equality in the WHERE clause of an
    update misses numbers of the other type and finds lists by their text.
 */
module Constants {
  import opened Prelude
  import opened Sparql
  import L = Lqa
  import T = ListText

  const XSD_INTEGER := "http://www.w3.org/2001/XMLSchema#integer"
  const XSD_DOUBLE := "http://www.w3.org/2001/XMLSchema#double"
  const XSD_BOOLEAN := "http://www.w3.org/2001/XMLSchema#boolean"
  const XSD_STRING := "http://www.w3.org/2001/XMLSchema#string"

  // isFloat tells which numbers are floats, f64 values in the code, and float gives the
  // shortest text that reads back as the float, 1 for 1.0; isSpace is what trim() removes.
  datatype Writer = Writer(isFloat: real -> bool, float: real -> string, isSpace: T.CharSet)

  function BoolText(b: bool): string {
    if b then "true" else "false"
  }

  function LitTerm(l: L.Literal, w: Writer): Option<Term> {
    match l
    case Integer(n) => Some(Lit(Numeral(n), XSD_INTEGER))
    case Float(f) => Some(Lit(w.float(f), XSD_DOUBLE))
    case String(s) => Some(Lit(s, XSD_STRING))
    case Boolean(b) => Some(Lit(BoolText(b), XSD_BOOLEAN))
    case Null => None
    case TypedLiteral(v, t) => Some(Lit(v, t))
    case IriRef(i) => Some(Iri(i))
  }

  // ---------- Constants ----------

  function LitText(l: L.Literal, w: Writer): string {
    match l
    case Integer(n) => Numeral(n)
    case Float(f) => w.float(f)
    case String(s) => "'" + s + "'"
    case Boolean(b) => BoolText(b)
    case Null => "null"
    case TypedLiteral(v, _) => v
    case IriRef(i) => i
  }

  // Inside a list or map there are no negated literals.
  function Serialize(e: L.Expr, w: Writer): Option<string>
    decreases e, 0
  {
    match e
    case Lit(l) => Some(LitText(l, w))
    case List(items) =>
      var parts :- SerializeAll(items, w);
      Some(T.Enc(parts))
    case Map(pairs) =>
      var parts :- SerializePairs(pairs, w);
      Some("{" + T.Join(parts) + "}")
    case Arith(op, a, b) =>
      if op != L.Add then None
      else
        var sa :- Serialize(a, w);
        var sb :- Serialize(b, w);
        if sa != "" && sa[0] == '[' && sb != "" && sb[0] == '[' then Some(T.FoldText(sa, sb, w.isSpace)) else None
    case _ => None
  }

  function SerializeAll(es: seq<L.Expr>, w: Writer): Option<seq<string>>
    decreases es, 1
  {
    if es == [] then Some([])
    else
      var s :- Serialize(es[0], w);
      var rest :- SerializeAll(es[1..], w);
      Some([s] + rest)
  }

  function SerializePairs(ps: seq<L.Entry>, w: Writer): Option<seq<string>>
    decreases ps, 1
  {
    if ps == [] then Some([])
    else
      var s :- Serialize(ps[0].value, w);
      var rest :- SerializePairs(ps[1..], w);
      Some([ps[0].key + ": " + s] + rest)
  }

  function ConstTerm(e: L.Expr, w: Writer): Option<Term> {
    match e
    case Lit(l) => LitTerm(l, w)
    case Unary(op, a) =>
      if op == L.Neg && a.Lit? && a.lit.Integer? then Some(Lit(Numeral(-a.lit.n), XSD_INTEGER))
      else if op == L.Neg && a.Lit? && a.lit.Float? then Some(Lit(w.float(-a.lit.f), XSD_DOUBLE))
      else None
    case List(_) => TextTerm(Serialize(e, w))
    case Map(_) => TextTerm(Serialize(e, w))
    case Arith(_, _, _) => TextTerm(Serialize(e, w))
    case _ => None
  }

  function TextTerm(s: Option<string>): Option<Term> {
    if s.Some? then Some(Lit(s.value, XSD_STRING)) else None
  }

  // ---------- Stored values ----------

  function ValueText(v: L.Value, w: Writer): Option<string>
    decreases v, 0
  {
    match v
    case VNull => Some("null")
    case VBool(b) => Some(BoolText(b))
    case VInt(n) => Some(Numeral(n))
    case VFloat(f) => Some(w.float(f))
    case VStr(s) => Some("'" + s + "'")
    case VTyped(s, _) => Some(s)
    case VIri(i) => Some(i)
    case VList(items) =>
      var parts :- ValueTexts(items, w);
      Some(T.Enc(parts))
    case VMap(pairs) =>
      var parts :- PairTexts(pairs, w);
      Some("{" + T.Join(parts) + "}")
    case _ => None
  }

  function ValueTexts(vs: seq<L.Value>, w: Writer): Option<seq<string>>
    decreases vs, 1
  {
    if vs == [] then Some([])
    else
      var s :- ValueText(vs[0], w);
      var rest :- ValueTexts(vs[1..], w);
      Some([s] + rest)
  }

  function PairTexts(ps: seq<(string, L.Value)>, w: Writer): Option<seq<string>>
    decreases ps, 1
  {
    if ps == [] then Some([])
    else
      assert ps decreases to ps[0];
      var s :- ValueText(ps[0].1, w);
      var rest :- PairTexts(ps[1..], w);
      Some([ps[0].0 + ": " + s] + rest)
  }

  // The literal that stores a property value; nodes and IRIs are no property values.
  function ValueTerm(v: L.Value, w: Writer): Option<Term> {
    match v
    case VInt(n) => Some(Lit(Numeral(n), XSD_INTEGER))
    case VFloat(f) => Some(Lit(w.float(f), XSD_DOUBLE))
    case VStr(s) => Some(Lit(s, XSD_STRING))
    case VBool(b) => Some(Lit(BoolText(b), XSD_BOOLEAN))
    case VTyped(s, t) => Some(Lit(s, t))
    case VList(_) => TextTerm(ValueText(v, w))
    case VMap(_) => TextTerm(ValueText(v, w))
    case _ => None
  }

  lemma ListOfOne(w: Writer)
    ensures ValueTerm(L.VList([L.VInt(1)]), w) == Some(Lit("[1]", XSD_STRING))
  {
    var one := [L.VInt(1)];
    assert one[1..] == [] && Decimal(1) == "1";
    assert ValueText(one[0], w) == Some("1");
    assert ValueTexts(one[1..], w) == Some([]);
    assert ValueTexts(one, w) == Some(["1"] + []);
    assert ["1"] + [] == ["1"];
    assert T.Enc(["1"]) == "[1]";
  }

  // ---------- A constant is written like its value ----------

  predicate HasSum(e: L.Expr) {
    match e
    case Arith(_, _, _) => true
    case List(items) => exists i :: 0 <= i < |items| && HasSum(items[i])
    case Map(pairs) => exists i :: 0 <= i < |pairs| && HasSum(pairs[i].value)
    case _ => false
  }

  lemma {:induction false} SerializeIsText(m: L.Meaning, e: L.Expr, w: Writer, env: L.Env)
    requires Serialize(e, w).Some? && !HasSum(e)
    ensures L.Eval(m, e, env, []).Some? && ValueText(L.Eval(m, e, env, []).value, w) == Serialize(e, w)
    decreases e, 0
  {
    match e {
      case List(items) => ItemsAreTexts(m, items, w, env);
      case Map(pairs) => PairsAreTexts(m, pairs, w, env);
      case _ =>
    }
  }

  lemma {:induction false} ItemsAreTexts(m: L.Meaning, es: seq<L.Expr>, w: Writer, env: L.Env)
    requires SerializeAll(es, w).Some? && forall i :: 0 <= i < |es| ==> !HasSum(es[i])
    ensures L.EvalAll(m, es, env, []).Some? && ValueTexts(L.EvalAll(m, es, env, []).value, w) == SerializeAll(es, w)
    decreases es, 1
  {
    if es != [] {
      SerializeIsText(m, es[0], w, env);
      ItemsAreTexts(m, es[1..], w, env);
      var v, vs := L.Eval(m, es[0], env, []).value, L.EvalAll(m, es[1..], env, []).value;
      assert ([v] + vs)[1..] == vs;
    }
  }

  lemma {:induction false} PairsAreTexts(m: L.Meaning, ps: seq<L.Entry>, w: Writer, env: L.Env)
    requires SerializePairs(ps, w).Some? && forall i :: 0 <= i < |ps| ==> !HasSum(ps[i].value)
    ensures L.EvalPairs(m, ps, env, []).Some? && PairTexts(L.EvalPairs(m, ps, env, []).value, w) == SerializePairs(ps, w)
    decreases ps, 1
  {
    if ps != [] {
      SerializeIsText(m, ps[0].value, w, env);
      PairsAreTexts(m, ps[1..], w, env);
      var v, vs := L.Eval(m, ps[0].value, env, []).value, L.EvalPairs(m, ps[1..], env, []).value;
      assert ([(ps[0].key, v)] + vs)[1..] == vs;
    }
  }

  // A constant without sums is stored as the term of its value, so what SET writes is
  // what a later MATCH on an equal constant looks for.
  lemma ConstantIsStored(m: L.Meaning, e: L.Expr, w: Writer, env: L.Env)
    requires ConstTerm(e, w).Some? && ConstTerm(e, w).value.Lit? && !HasSum(e)
    ensures L.Eval(m, e, env, []).Some? ==> ValueTerm(L.Eval(m, e, env, []).value, w) == ConstTerm(e, w)
    ensures L.Eval(m, e, env, []).None? <==> e == L.Unary(L.Neg, L.Lit(L.Integer(I64_MIN)))
  {
    hide L.EvalAll, L.EvalPairs, L.EvalBranches, L.EvalRows, L.Comprehend, L.CallV, L.SubscriptV, T.Enc, T.Join, T.FoldText, Numeral, BoolText;
    match e {
      case List(_) => SerializeIsText(m, e, w, env);
      case Map(_) => SerializeIsText(m, e, w, env);
      case _ =>
    }
  }

  // ---------- Which expressions are constants ----------

  predicate BeginsList(e: L.Expr, w: Writer) {
    e.List? || e.Arith? || (e.Lit? && LitText(e.lit, w) != "" && LitText(e.lit, w)[0] == '[')
  }

  // Literals, lists and maps of such, and sums of what reads like lists.
  predicate HasText(e: L.Expr, w: Writer) {
    match e
    case Lit(_) => true
    case List(items) => forall i :: 0 <= i < |items| ==> HasText(items[i], w)
    case Map(pairs) => forall i :: 0 <= i < |pairs| ==> HasText(pairs[i].value, w)
    case Arith(op, a, b) => op == L.Add && HasText(a, w) && HasText(b, w) && BeginsList(a, w) && BeginsList(b, w)
    case _ => false
  }

  // null is no constant, and minus signs stand before numbers only.
  predicate IsConstant(e: L.Expr, w: Writer) {
    match e
    case Lit(l) => l != L.Null
    case Unary(op, a) => op == L.Neg && a.Lit? && (a.lit.Integer? || a.lit.Float?)
    case _ => HasText(e, w)
  }

  lemma {:induction false} SerializedIff(e: L.Expr, w: Writer)
    ensures Serialize(e, w).Some? <==> HasText(e, w)
    ensures Serialize(e, w).Some? ==> (BeginsList(e, w) <==> Serialize(e, w).value != "" && Serialize(e, w).value[0] == '[')
    decreases e, 1
  {
    hide T.FoldText, LitText, T.Join;
    match e {
      case List(items) => AllSerializedIff(items, w);
      case Map(pairs) => PairsSerializedIff(pairs, w);
      case Arith(_, a, b) =>
        SerializedIff(a, w);
        SerializedIff(b, w);
        if Serialize(a, w).Some? && Serialize(b, w).Some? {
          FoldBegins(Serialize(a, w).value, Serialize(b, w).value, w);
        }
      case _ =>
    }
  }

  lemma FoldBegins(a: string, b: string, w: Writer)
    ensures T.FoldText(a, b, w.isSpace) != "" && T.FoldText(a, b, w.isSpace)[0] == '['
  {
    hide T.Trim;
  }

  lemma {:induction false} AllSerializedIff(es: seq<L.Expr>, w: Writer)
    ensures SerializeAll(es, w).Some? <==> forall i :: 0 <= i < |es| ==> HasText(es[i], w)
    decreases es, 0
  {
    hide Serialize, HasText, BeginsList;
    if es != [] {
      SerializedIff(es[0], w);
      AllSerializedIff(es[1..], w);
      assert forall i :: 0 < i < |es| ==> es[i] == es[1..][i - 1];
    }
  }

  lemma {:induction false} PairsSerializedIff(ps: seq<L.Entry>, w: Writer)
    ensures SerializePairs(ps, w).Some? <==> forall i :: 0 <= i < |ps| ==> HasText(ps[i].value, w)
    decreases ps, 0
  {
    hide Serialize, HasText, BeginsList;
    if ps != [] {
      SerializedIff(ps[0].value, w);
      PairsSerializedIff(ps[1..], w);
      assert forall i :: 0 < i < |ps| ==> ps[i] == ps[1..][i - 1];
    }
  }

  // What has a term.
  lemma ConstantIff(e: L.Expr, w: Writer)
    ensures ConstTerm(e, w).Some? <==> IsConstant(e, w)
  {
    hide Serialize;
    SerializedIff(e, w);
  }

  // The value of a literal of three of the types of XML Schema.
  function ReadTerm(t: Term): Option<L.Value> {
    if !t.Lit? then None
    else if t.datatypeIri == XSD_INTEGER then Some(L.VInt(ReadNumeral(t.lexical)))
    else if t.datatypeIri == XSD_BOOLEAN && t.lexical in {"true", "false"} then Some(L.VBool(t.lexical == "true"))
    else if t.datatypeIri == XSD_STRING then Some(L.VStr(t.lexical))
    else None
  }

  // Integers, negated or not, booleans and strings are read as the values they have.
  lemma ConstantReadsBack(m: L.Meaning, e: L.Expr, w: Writer, env: L.Env)
    requires (e.Lit? && (e.lit.Integer? || e.lit.Boolean? || e.lit.String?)) || (e.Unary? && e.uop == L.Neg && e.e.Lit? && e.e.lit.Integer?)
    requires L.Eval(m, e, env, []).Some?
    ensures ConstTerm(e, w).Some? && ReadTerm(ConstTerm(e, w).value) == L.Eval(m, e, env, [])
  {
    hide L.EvalAll, L.EvalPairs, L.EvalBranches, L.EvalRows, L.Comprehend, Numeral, ReadNumeral;
    var n := if e.Lit? && e.lit.Integer? then e.lit.n else if e.Unary? then -e.e.lit.n else 0;
    NumeralRoundTrip(n);
  }

  // ---------- What an equality of terms confuses ----------

  predicate IsScalar(v: L.Value) {
    v.VInt? || v.VFloat? || v.VStr? || v.VBool?
  }

  // Numbers are equal across types; nothing else is.
  predicate SameScalar(a: L.Value, c: L.Value) {
    if a.VInt? && c.VFloat? then a.n as real == c.f
    else if a.VFloat? && c.VInt? then a.f == c.n as real
    else a == c
  }

  ghost predicate CypherEquality(m: L.Meaning) {
    forall a: L.Value, c: L.Value :: IsScalar(c) && !a.VNull? ==>
      && m.compare(L.Eq, a, c) == (if SameScalar(a, c) then L.True else L.False)
      && m.compare(L.Eq, c, a) == (if SameScalar(a, c) then L.True else L.False)
  }

  // Different floats have different texts.
  ghost predicate DistinctTexts(w: Writer) {
    forall f: real, g: real :: w.isFloat(f) && w.isFloat(g) && w.float(f) == w.float(g) ==> f == g
  }

  predicate FloatsAreFloats(v: L.Value, w: Writer) {
    v.VFloat? ==> w.isFloat(v.f)
  }

  // A writer for whole numbers, written as the code writes the floats among them.
  function WholeFloats(): Writer {
    Writer((f: real) => f.Floor as real == f, (f: real) => Numeral(f.Floor), c => c == ' ')
  }

  lemma WholeFloatsAreDistinct(n: int)
    ensures DistinctTexts(WholeFloats()) && WholeFloats().isFloat(n as real)
  {
    var w := WholeFloats();
    forall f: real, g: real | w.isFloat(f) && w.isFloat(g) && w.float(f) == w.float(g)
      ensures f == g
    {
      NumeralInjective(f.Floor, g.Floor);
    }
  }

  // The stored value and the constant are equal but written differently, or the reverse:
  // a number of the other type; a list or map whose text is the string; or a typed literal
  // that has the constant's own form.
  predicate Misread(a: L.Value, c: L.Value, w: Writer) {
    || (a.VInt? && c.VFloat? && a.n as real == c.f)
    || (a.VFloat? && c.VInt? && a.f == c.n as real)
    || (c.VStr? && (a.VList? || a.VMap?) && ValueText(a, w) == Some(c.s))
    || (a.VTyped? && ValueTerm(c, w) == Some(Lit(a.lexical, a.typeIri)))
  }

  lemma NullIsRead(c: L.Value, w: Writer)
    ensures !Misread(L.VNull, c, w)
  {
  }

  // The terms decide an equality with a scalar rightly exactly when the stored value is
  // not one of those.
  lemma TermsDecideIff(m: L.Meaning, a: L.Value, c: L.Value, w: Writer)
    requires CypherEquality(m) && DistinctTexts(w) && IsScalar(c) && !a.VNull? && FloatsAreFloats(a, w) && FloatsAreFloats(c, w)
    ensures (ValueTerm(a, w) == ValueTerm(c, w) <==> L.CompareV(m, L.Eq, a, c) == L.VBool(true)) <==> !Misread(a, c, w)
    ensures L.CompareV(m, L.Eq, a, c) == L.CompareV(m, L.Eq, c, a)
  {
    if a.VInt? && c.VInt? {
      NumeralInjective(a.n, c.n);
    }
    assert m.compare(L.Eq, a, c) == (if SameScalar(a, c) then L.True else L.False);
  }

  // ---------- Comparisons in FILTER ----------

  // What SPARQL can compare: terms of different kinds are a type error.
  datatype Kind = Number | Text | Truth | Other

  function KindOf(t: Option<Term>): Kind {
    if t.None? || !t.value.Lit? then Other
    else if t.value.datatypeIri == XSD_INTEGER || t.value.datatypeIri == XSD_DOUBLE then Number
    else if t.value.datatypeIri == XSD_STRING then Text
    else if t.value.datatypeIri == XSD_BOOLEAN then Truth
    else Other
  }

  ghost predicate Denotes(t: Term, r: real, w: Writer) {
    || (exists n: int :: t == Lit(Numeral(n), XSD_INTEGER) && r == n as real)
    || (w.isFloat(r) && t == Lit(w.float(r), XSD_DOUBLE))
  }

  predicate Ordered(op: L.CmpOp, a: real, b: real) {
    match op
    case Lt => a < b
    case Le => a <= b
    case Gt => a > b
    case Ge => a >= b
    case _ => false
  }

  // s != t, by the operator mapping of section 17.3 of SPARQL 1.1 Query: numbers by their
  // values, strings and booleans by theirs, and an error, which filters out, otherwise.
  ghost predicate SparqlUnequal(s: Term, t: Term, w: Writer) {
    || (exists a: real, b: real :: Denotes(s, a, w) && Denotes(t, b, w) && a != b)
    || (s.Lit? && t.Lit? && s.datatypeIri == t.datatypeIri && s.datatypeIri in {XSD_STRING, XSD_BOOLEAN} && s.lexical != t.lexical)
  }

  // s < t and so on, for numbers.
  ghost predicate SparqlOrdered(op: L.CmpOp, s: Term, t: Term, w: Writer) {
    exists a: real, b: real :: Denotes(s, a, w) && Denotes(t, b, w) && Ordered(op, a, b)
  }

  function NumberOf(v: L.Value): Option<real> {
    if v.VInt? then Some(v.n as real) else if v.VFloat? then Some(v.f) else None
  }

  // Values of different types are unequal, and not ordered.
  ghost predicate CypherOrder(m: L.Meaning) {
    && (forall a: L.Value, c: L.Value :: IsScalar(c) && !a.VNull? ==> m.compare(L.Ne, a, c) == (if SameScalar(a, c) then L.False else L.True))
    && forall op, a: L.Value, c: L.Value :: op in {L.Lt, L.Le, L.Gt, L.Ge} && NumberOf(c).Some? && !a.VNull? ==>
         (m.compare(op, a, c) == L.True <==> NumberOf(a).Some? && Ordered(op, NumberOf(a).value, NumberOf(c).value))
  }

  // A typed literal that is none of the scalars, as temporal values are.
  predicate IsProper(v: L.Value) {
    v.VTyped? ==> v.typeIri !in {XSD_INTEGER, XSD_DOUBLE, XSD_STRING, XSD_BOOLEAN}
  }

  lemma NumberDenotes(v: L.Value, r: real, w: Writer)
    requires DistinctTexts(w) && IsProper(v) && FloatsAreFloats(v, w) && ValueTerm(v, w).Some?
    ensures Denotes(ValueTerm(v, w).value, r, w) <==> NumberOf(v) == Some(r)
  {
    if v.VInt? {
      forall n: int ensures Numeral(n) == Numeral(v.n) ==> n == v.n {
        NumeralInjective(n, v.n);
      }
    }
  }

  // FILTER decides x <> c rightly exactly when the value is null, or of the kind of c and
  // not a list or map whose text is c.
  lemma UnequalIff(m: L.Meaning, a: L.Value, c: L.Value, w: Writer)
    requires CypherOrder(m) && DistinctTexts(w) && IsScalar(c) && !a.VNull? && IsProper(a)
    requires FloatsAreFloats(a, w) && FloatsAreFloats(c, w)
    ensures (ValueTerm(a, w).Some? && SparqlUnequal(ValueTerm(a, w).value, ValueTerm(c, w).value, w) <==> L.CompareV(m, L.Ne, a, c) == L.VBool(true))
       <==> KindOf(ValueTerm(a, w)) == KindOf(ValueTerm(c, w)) && !(c.VStr? && (a.VList? || a.VMap?) && ValueText(a, w) == Some(c.s))
  {
    hide Denotes, ValueText, Numeral;
    assert m.compare(L.Ne, a, c) == (if SameScalar(a, c) then L.False else L.True);
    if ValueTerm(a, w).Some? {
      forall r: real
        ensures Denotes(ValueTerm(a, w).value, r, w) <==> NumberOf(a) == Some(r)
        ensures Denotes(ValueTerm(c, w).value, r, w) <==> NumberOf(c) == Some(r)
      {
        NumberDenotes(a, r, w);
        NumberDenotes(c, r, w);
      }
      if NumberOf(a).Some? && NumberOf(c).Some? {
        assert Denotes(ValueTerm(a, w).value, NumberOf(a).value, w) && Denotes(ValueTerm(c, w).value, NumberOf(c).value, w);
      }
    }
  }

  lemma OrderDecides(m: L.Meaning, op: L.CmpOp, a: L.Value, c: L.Value, w: Writer)
    requires CypherOrder(m) && DistinctTexts(w) && NumberOf(c).Some? && !a.VNull? && IsProper(a) && op in {L.Lt, L.Le, L.Gt, L.Ge}
    requires FloatsAreFloats(a, w) && FloatsAreFloats(c, w)
    ensures ValueTerm(c, w).Some?
    ensures ValueTerm(a, w).Some? && SparqlOrdered(op, ValueTerm(a, w).value, ValueTerm(c, w).value, w) <==> L.CompareV(m, op, a, c) == L.VBool(true)
  {
    hide Denotes, ValueText, Numeral;
    assert m.compare(op, a, c) == L.True <==> NumberOf(a).Some? && Ordered(op, NumberOf(a).value, NumberOf(c).value);
    if ValueTerm(a, w).Some? {
      forall r: real
        ensures Denotes(ValueTerm(a, w).value, r, w) <==> NumberOf(a) == Some(r)
        ensures Denotes(ValueTerm(c, w).value, r, w) <==> NumberOf(c) == Some(r)
      {
        NumberDenotes(a, r, w);
        NumberDenotes(c, r, w);
      }
      if NumberOf(a).Some? {
        assert Denotes(ValueTerm(a, w).value, NumberOf(a).value, w) && Denotes(ValueTerm(c, w).value, NumberOf(c).value, w);
      }
    }
  }

  // ---------- A choice of comparisons ----------

  function StandardCompare(op: L.CmpOp, a: L.Value, b: L.Value): L.Truth {
    match op
    case Eq => if SameScalar(a, b) then L.True else L.False
    case Ne => if SameScalar(a, b) then L.False else L.True
    case In =>
      if b.VList? && !a.VNull? && exists i :: 0 <= i < |b.items| && !b.items[i].VNull? && SameScalar(a, b.items[i]) then L.True else L.False
    case _ =>
      if NumberOf(a).None? || NumberOf(b).None? then L.Unknown
      else if Ordered(op, NumberOf(a).value, NumberOf(b).value) then L.True else L.False
  }

  lemma StandardCompareIsCypher(m: L.Meaning)
    requires forall op, a, b :: m.compare(op, a, b) == StandardCompare(op, a, b)
    ensures CypherEquality(m) && CypherOrder(m)
  {
  }
}

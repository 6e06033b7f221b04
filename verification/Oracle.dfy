/** The differential oracle: values, their equality, and the comparison of results.

    Integers and floats compare across types, by rounding the integer.  That is
    an equivalence only while no two integers in play round to the same float,
    and the greedy matching of rows is right exactly then.
 */
module Oracle {
  import opened Prelude
  import opened Matching

  // ---------- Floating point ----------

  // The two zeros compare equal and are one value here.
  datatype F64 = NaN | Infinity(negative: bool) | Finite(value: real)

  const P53: int := 0x20_0000_0000_0000

  // The distance between the floats around n.
  function Ulp(n: nat): (u: nat)
    ensures u > 0
  {
    if n < P53 then 1 else 2 * Ulp(n / 2)
  }

  // Round to nearest, ties to even.
  function RoundNat(n: nat): int {
    var u := Ulp(n);
    var q, r := n / u, n % u;
    if 2 * r < u || (2 * r == u && q % 2 == 0) then q * u else (q + 1) * u
  }

  function Round(i: int): int {
    if i < 0 then -RoundNat(-i) else RoundNat(i)
  }

  function ToF64(i: int): F64 {
    Finite(Round(i) as real)
  }

  ghost predicate Exact(ints: iset<int>) {
    forall i, j :: i in ints && j in ints && Round(i) == Round(j) ==> i == j
  }

  lemma SmallIsItself(n: nat)
    requires n <= P53
    ensures RoundNat(n) == n
  {
    if n == P53 {
      assert Ulp(n / 2) == 1;
      assert Ulp(n) == 2;
    } else {
      assert Ulp(n) == 1;
      assert n / 1 == n && n % 1 == 0;
    }
  }

  // Above 2^53 the floats are the multiples of a power of two, 53 bits long in it; rounding
  // takes the nearest, the even one of two that are equally near.
  lemma {:induction false} UlpIs(n: nat)
    ensures IsPowerOf2(Ulp(n)) && n < P53 * Ulp(n) && (n >= P53 ==> n >= P53 / 2 * Ulp(n))
  {
    if n >= P53 {
      UlpIs(n / 2);
      if n / 2 < P53 {
        assert Ulp(n / 2) == 1 && Ulp(n) == 2;
      }
    }
  }

  predicate IsPowerOf2(u: nat) {
    u == 1 || (u > 1 && u % 2 == 0 && IsPowerOf2(u / 2))
  }

  predicate IsMultiple(r: int, q: nat, u: nat) {
    r == q * u
  }

  lemma RoundIsNearest(n: nat) returns (q: nat)
    ensures IsPowerOf2(Ulp(n)) && (n < P53 ==> Ulp(n) == 1) && (n >= P53 ==> P53 / 2 * Ulp(n) <= n < P53 * Ulp(n))
    ensures IsMultiple(RoundNat(n), q, Ulp(n))
    ensures 2 * (RoundNat(n) - n) <= Ulp(n) && 2 * (n - RoundNat(n)) <= Ulp(n)
    ensures 2 * (RoundNat(n) - n) == Ulp(n) || 2 * (n - RoundNat(n)) == Ulp(n) ==> q % 2 == 0
  {
    UlpIs(n);
    q := NearestMultiple(n, Ulp(n));
  }

  lemma NearestMultiple(n: nat, u: nat) returns (q: nat)
    requires u > 0
    ensures var down, d := n / u, n % u;
            var r := if 2 * d < u || (2 * d == u && down % 2 == 0) then down * u else (down + 1) * u;
            && IsMultiple(r, q, u) && 2 * (r - n) <= u && 2 * (n - r) <= u && (2 * (r - n) == u || 2 * (n - r) == u ==> q % 2 == 0)
  {
    var down, d := n / u, n % u;
    assert n == down * u + d;
    assert (down + 1) * u == down * u + u;
    q := if 2 * d < u || (2 * d == u && down % 2 == 0) then down else down + 1;
  }

  predicate Small(i: int) {
    -P53 <= i <= P53
  }

  // Integers of magnitude up to 2^53 are exact, and the bound cannot be raised.
  lemma SmallIntegersAreExact()
    ensures Exact(iset i | Small(i))
    ensures Round(P53 + 1) == Round(P53)
  {
    forall i | Small(i)
      ensures Round(i) == i
    {
      SmallIsItself(if i < 0 then -i else i);
    }
    assert Ulp((P53 + 1) / 2) == 1;
    assert Ulp(P53 + 1) == 2;
  }

  // ---------- Values ----------

  datatype Value =
    | Null
    | Bool(b: bool)
    | Int(i: int)
    | Float(f: F64)
    | Str(s: string)
    | Node(id: string)
    | Rel(id: string)
    | List(items: seq<Value>)

  type Row = seq<Value>

  predicate StructuralEq(a: Value, b: Value) {
    match (a, b)
    case (Null, Null) => true
    case (Null, _) => false
    case (_, Null) => false
    case (Float(x), Float(y)) => if x.NaN? && y.NaN? then true else x == y && !x.NaN?
    case (Int(x), Float(y)) => ToF64(x) == y
    case (Float(y), Int(x)) => ToF64(x) == y
    case (List(x), List(y)) => AllEq(x, y)
    case (_, _) => a == b
  }

  predicate AllEq(a: seq<Value>, b: seq<Value>) {
    |a| == |b| && forall k :: 0 <= k < |a| ==> StructuralEq(a[k], b[k])
  }

  predicate RowsEq(a: Row, b: Row) {
    AllEq(a, b)
  }

  function Ints(v: Value): set<int> {
    match v
    case Int(i) => {i}
    case List(items) => set v, i | v in items && i in Ints(v) :: i
    case _ => {}
  }

  ghost predicate Over(v: Value, ints: iset<int>) {
    forall i :: i in Ints(v) ==> i in ints
  }

  ghost predicate RowOver(row: Row, ints: iset<int>) {
    forall k :: 0 <= k < |row| ==> Over(row[k], ints)
  }

  // The value with every integer replaced by the float it compares to.
  function Canon(v: Value): Value {
    match v
    case Int(i) => Float(ToF64(i))
    case List(items) => List(CanonRow(items))
    case _ => v
  }

  function CanonRow(row: Row): (r: Row)
    ensures |r| == |row|
    ensures forall k :: 0 <= k < |row| ==> r[k] == Canon(row[k])
  {
    seq(|row|, k requires 0 <= k < |row| => Canon(row[k]))
  }

  lemma {:induction false} EqIsCanon(a: Value, b: Value, ints: iset<int>)
    requires Exact(ints) && Over(a, ints) && Over(b, ints)
    ensures StructuralEq(a, b) <==> Canon(a) == Canon(b)
  {
    match (a, b) {
      case (List(x), List(y)) =>
        forall k | 0 <= k < |x|
          ensures Over(x[k], ints)
        {
          assert Ints(x[k]) <= Ints(a);
        }
        forall k | 0 <= k < |y|
          ensures Over(y[k], ints)
        {
          assert Ints(y[k]) <= Ints(b);
        }
        RowEqIsCanon(x, y, ints);
      case (Int(x), Int(y)) => assert x in Ints(a) && y in Ints(b);
      case (_, _) =>
    }
  }

  lemma {:induction false} RowEqIsCanon(a: Row, b: Row, ints: iset<int>)
    requires Exact(ints) && RowOver(a, ints) && RowOver(b, ints)
    ensures AllEq(a, b) <==> CanonRow(a) == CanonRow(b)
  {
    if |a| == |b| {
      forall k | 0 <= k < |a|
        ensures StructuralEq(a[k], b[k]) <==> Canon(a[k]) == Canon(b[k])
      {
        EqIsCanon(a[k], b[k], ints);
      }
      if CanonRow(a) == CanonRow(b) {
        assert forall k :: 0 <= k < |a| ==> CanonRow(a)[k] == CanonRow(b)[k];
      }
    }
  }

  lemma {:induction false} EqIsSymmetric(a: Value, b: Value)
    ensures StructuralEq(a, a) && (StructuralEq(a, b) <==> StructuralEq(b, a))
  {
    match a {
      case List(x) =>
        forall k | 0 <= k < |x|
          ensures StructuralEq(x[k], x[k])
        {
          EqIsSymmetric(x[k], x[k]);
        }
        if b.List? && |x| == |b.items| {
          forall k | 0 <= k < |x|
            ensures StructuralEq(x[k], b.items[k]) <==> StructuralEq(b.items[k], x[k])
          {
            EqIsSymmetric(x[k], b.items[k]);
          }
        }
      case _ =>
    }
  }

  ghost predicate Transitive(ints: iset<int>) {
    forall a, b, c :: Over(a, ints) && Over(b, ints) && Over(c, ints) && StructuralEq(a, b) && StructuralEq(b, c) ==> StructuralEq(a, c)
  }

  // The oracle's equality is reflexive and symmetric.  It is transitive exactly when no
  // two of the integers in play round to the same float.
  lemma TransitiveIffExact(ints: iset<int>)
    ensures Transitive(ints) <==> Exact(ints)
  {
    if Exact(ints) {
      forall a, b, c | Over(a, ints) && Over(b, ints) && Over(c, ints) && StructuralEq(a, b) && StructuralEq(b, c)
        ensures StructuralEq(a, c)
      {
        EqIsCanon(a, b, ints);
        EqIsCanon(b, c, ints);
        EqIsCanon(a, c, ints);
      }
    }
    if Transitive(ints) {
      forall i, j | i in ints && j in ints && Round(i) == Round(j)
        ensures i == j
      {
        var a, b, c := Int(i), Float(ToF64(i)), Int(j);
        assert Over(a, ints) && Over(b, ints) && Over(c, ints) && StructuralEq(a, b) && StructuralEq(b, c);
        assert StructuralEq(a, c);
      }
    }
  }

  // ---------- Comparing results ----------

  datatype OrderMode = BagOrder | Ordered
  datatype ColumnDiff = ColumnDiff(expected: seq<string>, actual: seq<string>)
  datatype Outcome = Match | Mismatch(missing: seq<Row>, unexpected: seq<Row>, columns: Option<ColumnDiff>)

  // The rows of xs that equal no row of ys; flipped, the row of ys comes first.
  function Without(xs: seq<Row>, ys: seq<Row>, flip: bool): seq<Row> {
    if xs == [] then []
    else (if HasCounterpart(xs[0], ys, flip) then [] else [xs[0]]) + Without(xs[1..], ys, flip)
  }

  predicate HasCounterpart(x: Row, ys: seq<Row>, flip: bool) {
    exists k :: 0 <= k < |ys| && if flip then RowsEq(ys[k], x) else RowsEq(x, ys[k])
  }

  function DiffRows(expected: seq<Row>, actual: seq<Row>): Outcome {
    Mismatch(Without(expected, actual, false), Without(actual, expected, true), None)
  }

  function Compared(expectedColumns: seq<string>, expected: seq<Row>, actualColumns: seq<string>, actual: seq<Row>, order: OrderMode): Outcome {
    if expectedColumns != actualColumns then Mismatch(expected, actual, Some(ColumnDiff(expectedColumns, actualColumns)))
    else if order == Ordered then (if AllEqual(expected, actual, RowsEq) then Match else DiffRows(expected, actual))
    else if BagMatch(expected, actual, RowsEq) then Match
    else
      var d := BagDiff(expected, actual, RowsEq);
      Mismatch(d.missing, d.remaining, None)
  }

  method Compare(expectedColumns: seq<string>, expected: seq<Row>, actualColumns: seq<string>, actual: seq<Row>, order: OrderMode)
    returns (outcome: Outcome)
    ensures outcome == Compared(expectedColumns, expected, actualColumns, actual, order)
  {
    hide RowsEq, Without, BagDiff;
    if expectedColumns != actualColumns {
      return Mismatch(expected, actual, Some(ColumnDiff(expectedColumns, actualColumns)));
    }
    if order == Ordered {
      if |expected| != |actual| || exists k :: 0 <= k < |expected| && !RowsEq(expected[k], actual[k]) {
        return DiffRows(expected, actual);
      }
      return Match;
    }
    var d := Greedy(expected, actual, RowsEq);
    return if |d.missing| == 0 && |d.remaining| == 0 then Match else Mismatch(d.missing, d.remaining, None);
  }

  // ---------- Bag mode ----------

  ghost predicate RowsOver(rows: seq<Row>, ints: iset<int>) {
    forall k :: 0 <= k < |rows| ==> RowOver(rows[k], ints)
  }

  lemma RowsAreKeyed(expected: seq<Row>, actual: seq<Row>, ints: iset<int>)
    requires Exact(ints) && RowsOver(expected, ints) && RowsOver(actual, ints)
    ensures Keyed(expected, actual, RowsEq, CanonRow)
  {
    forall e, a | e in expected && a in actual
      ensures RowsEq(e, a) <==> CanonRow(e) == CanonRow(a)
    {
      RowEqIsCanon(e, a, ints);
    }
  }

  // Bag mode decides pairability of all results over a set of integers exactly when those
  // integers are exact.  Otherwise its answer depends on the order of the rows.
  lemma BagModeIffExact(ints: iset<int>)
    ensures Exact(ints)
       <==> forall expected, actual :: RowsOver(expected, ints) && RowsOver(actual, ints) ==>
              (BagMatch(expected, actual, RowsEq) <==> Pairable(expected, actual, RowsEq))
  {
    hide RowsEq;
    if Exact(ints) {
      forall expected, actual | RowsOver(expected, ints) && RowsOver(actual, ints)
        ensures BagMatch(expected, actual, RowsEq) <==> Pairable(expected, actual, RowsEq)
      {
        RowsAreKeyed(expected, actual, ints);
        PairingIsMatch(expected, actual, RowsEq, CanonRow);
      }
    } else {
      var i, j :| i in ints && j in ints && Round(i) == Round(j) && i != j;
      InexactMismatch(i, j, ints);
    }
  }

  // With exact integers the outcome is a matter of bags: it does not change when the
  // rows of either side are reordered.
  lemma BagModeIgnoresOrder(columns: seq<string>, expected: seq<Row>, actual: seq<Row>, expected': seq<Row>, actual': seq<Row>, ints: iset<int>)
    requires Exact(ints) && RowsOver(expected, ints) && RowsOver(actual, ints) && RowsOver(expected', ints) && RowsOver(actual', ints)
    requires multiset(expected) == multiset(expected') && multiset(actual) == multiset(actual')
    ensures Compared(columns, expected, columns, actual, BagOrder) == Match
       <==> Compared(columns, expected', columns, actual', BagOrder) == Match
  {
    hide RowsEq, CanonRow, BagMatch;
    RowsAreKeyed(expected, actual, ints);
    RowsAreKeyed(expected', actual', ints);
    PairingIsMatch(expected, actual, RowsEq, CanonRow);
    PairingIsMatch(expected', actual', RowsEq, CanonRow);
    KeysOfPermutation(expected, expected', CanonRow);
    KeysOfPermutation(actual, actual', CanonRow);
  }

  // Two integers that round alike, and a float equal to both: the float takes the
  // integer that the other row needs.
  lemma InexactMismatch(i: int, j: int, ints: iset<int>)
    requires i in ints && j in ints && Round(i) == Round(j) && i != j
    ensures var expected, actual := [[Float(ToF64(i))], [Int(i)]], [[Int(i)], [Int(j)]];
            && RowsOver(expected, ints) && RowsOver(actual, ints)
            && Pairable(expected, actual, RowsEq) && !BagMatch(expected, actual, RowsEq)
  {
    hide Round, RowsEq, BagMatch, RowOver;
    var f, a, b := Float(ToF64(i)), Int(i), Int(j);
    SingleRows(f, a, ints);
    SingleRows(f, b, ints);
    SingleRows(a, a, ints);
    SingleRows(a, b, ints);
    FloatTakesFirst([f], [a], [b], RowsEq);
  }

  lemma SingleRows(v: Value, w: Value, ints: iset<int>)
    ensures RowsEq([v], [w]) <==> StructuralEq(v, w)
    ensures Over(v, ints) ==> RowOver([v], ints)
    ensures Over(w, ints) ==> RowOver([w], ints)
  {
    if RowsEq([v], [w]) {
      assert StructuralEq([v][0], [w][0]);
    }
  }

  lemma FloatTakesFirst<T(!new)>(f: T, a: T, b: T, eq: (T, T) -> bool)
    requires eq(f, a) && eq(f, b) && eq(a, a) && !eq(a, b)
    ensures Pairable([f, a], [a, b], eq) && !BagMatch([f, a], [a, b], eq)
  {
    var expected, actual, q := [f, a], [a, b], [b, a];
    assert multiset(q) == multiset(actual) && AllEqual(expected, q, eq);
    assert FirstMatch(f, actual, 0, eq) == Some(0);
    var left := SwapRemove(actual, 0);
    assert left == [b];
    var d := BagDiff([a], left, eq);
    assert expected[1..] == [a];
    assert d == BagDiff(expected[1..], left, eq);
    assert FirstMatch(a, left, 0, eq) == None;
    assert d.missing == [a] + BagDiff([a][1..], left, eq).missing;
  }

  // ---------- Ordered mode ----------

  // Some row equals x.
  predicate HasEqual(x: Row, rows: seq<Row>) {
    exists y :: y in rows && |x| == |y| && forall k :: 0 <= k < |x| ==> StructuralEq(x[k], y[k])
  }

  lemma CounterpartIff(x: Row, ys: seq<Row>, flip: bool)
    ensures HasCounterpart(x, ys, flip) <==> HasEqual(x, ys)
  {
    hide StructuralEq;
    forall y | y in ys && |x| == |y|
      ensures RowsEq(x, y) <==> RowsEq(y, x)
    {
      forall k | 0 <= k < |x|
        ensures StructuralEq(x[k], y[k]) <==> StructuralEq(y[k], x[k])
      {
        EqIsSymmetric(x[k], y[k]);
      }
    }
    if k :| 0 <= k < |ys| && if flip then RowsEq(ys[k], x) else RowsEq(x, ys[k]) {
      assert ys[k] in ys;
    }
    if y :| y in ys && RowsEq(x, y) {
      var k :| 0 <= k < |ys| && ys[k] == y;
      assert if flip then RowsEq(ys[k], x) else RowsEq(x, ys[k]);
    }
  }

  // Ordered mode matches position by position.  The report of a mismatch can be empty:
  // it is exactly when every row has a counterpart somewhere on the other side.
  lemma OrderedOutcome(columns: seq<string>, expected: seq<Row>, actual: seq<Row>)
    ensures var o := Compared(columns, expected, columns, actual, Ordered);
            var inOrder := AllEqual(expected, actual, RowsEq);
            var elsewhere := (forall e :: e in expected ==> HasEqual(e, actual)) && (forall a :: a in actual ==> HasEqual(a, expected));
            && (o == Match <==> inOrder)
            && (o == Mismatch([], [], None) <==> !inOrder && elsewhere)
  {
    WithoutNone(expected, actual, false);
    WithoutNone(actual, expected, true);
  }

  lemma {:induction false} WithoutNone(xs: seq<Row>, ys: seq<Row>, flip: bool)
    ensures |Without(xs, ys, flip)| == 0 <==> forall x :: x in xs ==> HasEqual(x, ys)
  {
    hide HasCounterpart, HasEqual;
    if xs != [] {
      CounterpartIff(xs[0], ys, flip);
      WithoutNone(xs[1..], ys, flip);
    }
  }

  // ---------- The report ----------

  lemma {:induction false} WithoutCounts(xs: seq<Row>, ys: seq<Row>, flip: bool, r: Row)
    ensures multiset(Without(xs, ys, flip))[r] == if HasCounterpart(r, ys, flip) then 0 else multiset(xs)[r]
  {
    hide HasCounterpart;
    if xs != [] {
      WithoutCounts(xs[1..], ys, flip, r);
      var first := if HasCounterpart(xs[0], ys, flip) then [] else [xs[0]];
      assert multiset(Without(xs, ys, flip)) == multiset(first) + multiset(Without(xs[1..], ys, flip));
      assert xs == [xs[0]] + xs[1..];
      assert multiset(xs) == multiset([xs[0]]) + multiset(xs[1..]);
    }
  }

  // Where the columns differ, everything is reported, and the columns with it.  In order,
  // what is reported are the rows without a counterpart, each as often as it occurs; as bags,
  // the rows left over when the others are paired off.
  lemma ReportIs(expectedColumns: seq<string>, expected: seq<Row>, actualColumns: seq<string>, actual: seq<Row>, order: OrderMode)
    ensures var o := Compared(expectedColumns, expected, actualColumns, actual, order);
            && (expectedColumns != actualColumns ==> o == Mismatch(expected, actual, Some(ColumnDiff(expectedColumns, actualColumns))))
            && (expectedColumns == actualColumns && o.Mismatch? ==> o.columns == None)
            && (expectedColumns == actualColumns && o.Mismatch? && order == Ordered ==> forall r: Row ::
                  && multiset(o.missing)[r] == (if HasEqual(r, actual) then 0 else multiset(expected)[r])
                  && multiset(o.unexpected)[r] == (if HasEqual(r, expected) then 0 else multiset(actual)[r]))
            && (expectedColumns == actualColumns && o.Mismatch? && order == BagOrder ==>
                  exists me, ma :: PairedOff(expected, actual, Diff(o.missing, o.unexpected), me, ma, RowsEq))
  {
    hide HasCounterpart, HasEqual, RowsEq, BagDiff, PairedOff;
    var me, ma := MatchingConserves(expected, actual, RowsEq);
    forall r: Row
      ensures multiset(Without(expected, actual, false))[r] == if HasEqual(r, actual) then 0 else multiset(expected)[r]
      ensures multiset(Without(actual, expected, true))[r] == if HasEqual(r, expected) then 0 else multiset(actual)[r]
    {
      CounterpartIff(r, actual, false);
      CounterpartIff(r, expected, true);
      WithoutCounts(expected, actual, false, r);
      WithoutCounts(actual, expected, true, r);
    }
  }
}

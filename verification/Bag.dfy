/** The bag algebra: joins over a hash index, grouping, and equality by counting.

    Each algorithm is tied to the nested loop or filter it replaces, and that in
    turn to what it means: which rows come out, how often, in which order.
 */
module Bag {
  import opened Prelude

  // ---------- The rows with a given key ----------

  function WithKey<T, K(==)>(rows: seq<T>, key: T -> K, k: K): seq<T> {
    if rows == [] then [] else (if key(rows[0]) == k then [rows[0]] else []) + WithKey(rows[1..], key, k)
  }

  lemma {:induction false} WithKeySnoc<T, K>(rows: seq<T>, x: T, key: T -> K, k: K)
    ensures WithKey(rows + [x], key, k) == WithKey(rows, key, k) + if key(x) == k then [x] else []
  {
    var last := if key(x) == k then [x] else [];
    if rows == [] {
      assert (rows + [x])[1..] == [];
      assert last + [] == [] + last;
    } else {
      var first := if key(rows[0]) == k then [rows[0]] else [];
      assert (rows + [x])[0] == rows[0] && (rows + [x])[1..] == rows[1..] + [x];
      WithKeySnoc(rows[1..], x, key, k);
      assert first + (WithKey(rows[1..], key, k) + last) == (first + WithKey(rows[1..], key, k)) + last;
    }
  }

  lemma {:induction false} WithKeyCounts<T, K>(rows: seq<T>, key: T -> K, k: K, x: T)
    ensures multiset(WithKey(rows, key, k))[x] == if key(x) == k then multiset(rows)[x] else 0
  {
    if rows != [] {
      WithKeyCounts(rows[1..], key, k, x);
      assert rows == [rows[0]] + rows[1..];
    }
  }

  // m maps every key of the rows to the rows that have it.
  ghost predicate IsIndex<T, K>(m: map<K, seq<T>>, rows: seq<T>, key: T -> K) {
    m.Keys == (set r | r in rows :: key(r)) && forall k :: k in m ==> m[k] == WithKey(rows, key, k)
  }

  lemma {:induction false} NoRowsWithKey<T, K>(rows: seq<T>, key: T -> K, k: K)
    ensures WithKey(rows, key, k) == [] <==> forall r :: r in rows ==> key(r) != k
  {
    if rows != [] {
      NoRowsWithKey(rows[1..], key, k);
      assert forall r :: r in rows <==> r == rows[0] || r in rows[1..];
    }
  }

  // ---------- Grouping ----------

  // One row pushed under its key.
  function Push<T, K(==)>(m: map<K, seq<T>>, k: K, row: T): map<K, seq<T>> {
    m[k := (if k in m then m[k] else []) + [row]]
  }

  lemma PushKeepsIndex<T, K>(m: map<K, seq<T>>, rows: seq<T>, key: T -> K, row: T)
    requires IsIndex(m, rows, key)
    ensures IsIndex(Push(m, key(row), row), rows + [row], key)
  {
    var m', rows' := Push(m, key(row), row), rows + [row];
    assert forall r :: r in rows' <==> r in rows || r == row;
    assert m'.Keys == set r | r in rows' :: key(r);
    forall k | k in m'
      ensures m'[k] == WithKey(rows', key, k)
    {
      WithKeySnoc(rows, row, key, k);
      if k !in m {
        NoRowsWithKey(rows, key, k);
      }
    }
  }

  // Every group is not empty and in the order of the bag, and every row is in the
  // group of its key exactly as often as in the bag, and in no other.
  method GroupBy<T, K(==)>(bag: seq<T>, key: T -> K) returns (groups: map<K, seq<T>>)
    ensures groups.Keys == set r | r in bag :: key(r)
    ensures forall k :: k in groups ==> groups[k] != [] && groups[k] == WithKey(bag, key, k)
    ensures forall k, x :: k in groups ==> multiset(groups[k])[x] == if key(x) == k then multiset(bag)[x] else 0
  {
    groups := map[];
    for i := 0 to |bag|
      invariant IsIndex(groups, bag[..i], key)
    {
      assert bag[..i + 1] == bag[..i] + [bag[i]];
      PushKeepsIndex(groups, bag[..i], key, bag[i]);
      groups := Push(groups, key(bag[i]), bag[i]);
    }
    assert bag[..|bag|] == bag;
    forall k | k in groups
      ensures groups[k] != []
    {
      NoRowsWithKey(bag, key, k);
    }
    forall k, x | k in groups
      ensures multiset(groups[k])[x] == if key(x) == k then multiset(bag)[x] else 0
    {
      WithKeyCounts(bag, key, k, x);
    }
  }

  // ---------- Joins ----------

  function CombineAll<L, R, O>(l: L, rs: seq<R>, combine: (L, R) -> O): seq<O> {
    if rs == [] then [] else [combine(l, rs[0])] + CombineAll(l, rs[1..], combine)
  }

  function NestedLoop<L, R, K(==), O>(left: seq<L>, right: seq<R>, keyL: L -> K, keyR: R -> K, combine: (L, R) -> O): seq<O> {
    if left == [] then []
    else CombineAll(left[0], WithKey(right, keyR, keyL(left[0])), combine) + NestedLoop(left[1..], right, keyL, keyR, combine)
  }

  function OuterRows<L, R, O>(l: L, rs: seq<R>, combine: (L, R) -> O, nullRow: L -> O): seq<O> {
    if |rs| == 0 then [nullRow(l)] else CombineAll(l, rs, combine)
  }

  function OuterLoop<L, R, K(==), O>(left: seq<L>, right: seq<R>, keyL: L -> K, keyR: R -> K, combine: (L, R) -> O, nullRow: L -> O): seq<O> {
    if left == [] then []
    else
      OuterRows(left[0], WithKey(right, keyR, keyL(left[0])), combine, nullRow)
      + OuterLoop(left[1..], right, keyL, keyR, combine, nullRow)
  }

  method BuildIndex<R, K(==)>(right: seq<R>, keyR: R -> K) returns (index: map<K, seq<R>>)
    ensures IsIndex(index, right, keyR)
  {
    index := map[];
    for i := 0 to |right|
      invariant IsIndex(index, right[..i], keyR)
    {
      assert right[..i + 1] == right[..i] + [right[i]];
      PushKeepsIndex(index, right[..i], keyR, right[i]);
      index := Push(index, keyR(right[i]), right[i]);
    }
    assert right[..|right|] == right;
  }

  method EmitMatches<L, R, O>(out: seq<O>, l: L, matching: seq<R>, combine: (L, R) -> O) returns (out': seq<O>)
    ensures out' == out + CombineAll(l, matching, combine)
  {
    out' := out;
    for j := 0 to |matching|
      invariant out + CombineAll(l, matching, combine) == out' + CombineAll(l, matching[j..], combine)
    {
      assert matching[j..][0] == matching[j] && matching[j..][1..] == matching[j + 1..];
      out' := out' + [combine(l, matching[j])];
    }
    assert matching[|matching|..] == [];
  }

  lemma CombineNone<L, R, O>(l: L, rs: seq<R>, combine: (L, R) -> O)
    requires |rs| == 0
    ensures CombineAll(l, rs, combine) == []
  {
  }

  method NaturalJoin<L, R, K(==), O>(left: seq<L>, right: seq<R>, keyL: L -> K, keyR: R -> K, combine: (L, R) -> O) returns (out: seq<O>)
    ensures out == NestedLoop(left, right, keyL, keyR, combine)
  {
    hide CombineAll, WithKey;
    var index := BuildIndex(right, keyR);
    out := [];
    for i := 0 to |left|
      invariant NestedLoop(left, right, keyL, keyR, combine) == out + NestedLoop(left[i..], right, keyL, keyR, combine)
    {
      assert left[i..][0] == left[i] && left[i..][1..] == left[i + 1..];
      var k := keyL(left[i]);
      NoRowsWithKey(right, keyR, k);
      ghost var own, rest := CombineAll(left[i], WithKey(right, keyR, k), combine), NestedLoop(left[i + 1..], right, keyL, keyR, combine);
      assert out + (own + rest) == (out + own) + rest;
      if k in index {
        out := EmitMatches(out, left[i], index[k], combine);
      } else {
        CombineNone(left[i], WithKey(right, keyR, k), combine);
      }
    }
    assert left[|left|..] == [];
  }

  method LeftOuterJoin<L, R, K(==), O>(left: seq<L>, right: seq<R>, keyL: L -> K, keyR: R -> K, combine: (L, R) -> O, nullRow: L -> O)
    returns (out: seq<O>)
    ensures out == OuterLoop(left, right, keyL, keyR, combine, nullRow)
  {
    hide CombineAll, WithKey;
    var index := BuildIndex(right, keyR);
    out := [];
    for i := 0 to |left|
      invariant OuterLoop(left, right, keyL, keyR, combine, nullRow) == out + OuterLoop(left[i..], right, keyL, keyR, combine, nullRow)
    {
      assert left[i..][0] == left[i] && left[i..][1..] == left[i + 1..];
      var k := keyL(left[i]);
      NoRowsWithKey(right, keyR, k);
      ghost var own, rest := OuterRows(left[i], WithKey(right, keyR, k), combine, nullRow), OuterLoop(left[i + 1..], right, keyL, keyR, combine, nullRow);
      assert out + (own + rest) == (out + own) + rest;
      if k in index {
        assert own == CombineAll(left[i], index[k], combine);
        out := EmitMatches(out, left[i], index[k], combine);
      } else {
        assert own == [nullRow(left[i])];
        out := out + [nullRow(left[i])];
      }
    }
    assert left[|left|..] == [];
  }

  // ---------- What a join is ----------

  datatype Pair = Pair(i: nat, j: nat)

  predicate Before(p: Pair, q: Pair) {
    p.i < q.i || (p.i == q.i && p.j < q.j)
  }

  predicate LeftMajor(ps: seq<Pair>) {
    forall a, b :: 0 <= a < b < |ps| ==> Before(ps[a], ps[b])
  }

  predicate EqualKeys<L, R, K(==)>(left: seq<L>, right: seq<R>, keyL: L -> K, keyR: R -> K, p: Pair) {
    p.i < |left| && p.j < |right| && keyL(left[p.i]) == keyR(right[p.j])
  }

  // out lists the combinations of the pairs ps.
  ghost predicate Combines<L, R, O>(out: seq<O>, ps: seq<Pair>, left: seq<L>, right: seq<R>, combine: (L, R) -> O) {
    && |out| == |ps|
    && forall n :: 0 <= n < |ps| ==> ps[n].i < |left| && ps[n].j < |right| && out[n] == combine(left[ps[n].i], right[ps[n].j])
  }

  // The pairs that left row i makes with the right rows from j on.
  function PairsFrom<R, K(==)>(i: nat, right: seq<R>, j: nat, keyR: R -> K, k: K): (ps: seq<Pair>)
    requires j <= |right|
    ensures forall p :: p in ps <==> p.i == i && j <= p.j < |right| && keyR(right[p.j]) == k
    ensures LeftMajor(ps)
    decreases |right| - j
  {
    if j == |right| then []
    else (if keyR(right[j]) == k then [Pair(i, j)] else []) + PairsFrom(i, right, j + 1, keyR, k)
  }

  lemma {:induction false} RowCombines<L, R, K, O>(left: seq<L>, i: nat, right: seq<R>, j: nat, keyR: R -> K, k: K, combine: (L, R) -> O)
    requires i < |left| && j <= |right|
    ensures Combines(CombineAll(left[i], WithKey(right[j..], keyR, k), combine), PairsFrom(i, right, j, keyR, k), left, right, combine)
    decreases |right| - j
  {
    if j < |right| {
      assert right[j..][0] == right[j] && right[j..][1..] == right[j + 1..];
      RowCombines(left, i, right, j + 1, keyR, k, combine);
      var rest, ps := WithKey(right[j + 1..], keyR, k), PairsFrom(i, right, j + 1, keyR, k);
      if keyR(right[j]) == k {
        assert ([right[j]] + rest)[1..] == rest;
        CombinesCons(CombineAll(left[i], rest, combine), ps, left, right, combine, Pair(i, j));
        assert WithKey(right[j..], keyR, k) == [right[j]] + rest;
        assert CombineAll(left[i], [right[j]] + rest, combine) == [combine(left[i], right[j])] + CombineAll(left[i], rest, combine);
      } else {
        assert WithKey(right[j..], keyR, k) == [] + rest == rest && PairsFrom(i, right, j, keyR, k) == [] + ps == ps;
      }
    }
  }

  lemma CombinesCons<L, R, O>(out: seq<O>, ps: seq<Pair>, left: seq<L>, right: seq<R>, combine: (L, R) -> O, p: Pair)
    requires Combines(out, ps, left, right, combine) && p.i < |left| && p.j < |right|
    ensures Combines([combine(left[p.i], right[p.j])] + out, [p] + ps, left, right, combine)
  {
  }

  lemma {:induction false} LoopCombines<L, R, K, O>(left: seq<L>, i: nat, right: seq<R>, keyL: L -> K, keyR: R -> K, combine: (L, R) -> O)
    returns (ps: seq<Pair>)
    requires i <= |left|
    ensures LeftMajor(ps)
    ensures forall p :: p in ps <==> i <= p.i && EqualKeys(left, right, keyL, keyR, p)
    ensures Combines(NestedLoop(left[i..], right, keyL, keyR, combine), ps, left, right, combine)
    decreases |left| - i
  {
    if i == |left| {
      ps := [];
    } else {
      assert left[i..][0] == left[i] && left[i..][1..] == left[i + 1..] && right[0..] == right;
      var own := PairsFrom(i, right, 0, keyR, keyL(left[i]));
      RowCombines(left, i, right, 0, keyR, keyL(left[i]), combine);
      var rest := LoopCombines(left, i + 1, right, keyL, keyR, combine);
      ps := own + rest;
      forall a, b | 0 <= a < b < |ps|
        ensures Before(ps[a], ps[b])
      {
        if a < |own| <= b {
          assert own[a] in own && rest[b - |own|] in rest;
        }
      }
    }
  }

  // The join emits one row for each pair of rows with equal keys, no other row, and
  // in left-major order.
  lemma JoinMeaning<L, R, K, O>(left: seq<L>, right: seq<R>, keyL: L -> K, keyR: R -> K, combine: (L, R) -> O)
    ensures exists ps ::
              && LeftMajor(ps)
              && (forall p :: p in ps <==> EqualKeys(left, right, keyL, keyR, p))
              && Combines(NestedLoop(left, right, keyL, keyR, combine), ps, left, right, combine)
  {
    var ps := LoopCombines(left, 0, right, keyL, keyR, combine);
    assert left[0..] == left;
  }

  predicate Unmatched<L, R, K(==)>(l: L, right: seq<R>, keyL: L -> K, keyR: R -> K) {
    forall j :: 0 <= j < |right| ==> keyR(right[j]) != keyL(l)
  }

  function NullRows<L, R, K(==), O>(left: seq<L>, right: seq<R>, keyL: L -> K, keyR: R -> K, nullRow: L -> O): seq<O> {
    if left == [] then []
    else (if Unmatched(left[0], right, keyL, keyR) then [nullRow(left[0])] else []) + NullRows(left[1..], right, keyL, keyR, nullRow)
  }

  // As a bag, the outer join is the join and one null row for every unmatched left row.
  lemma {:induction false} OuterJoinMeaning<L, R, K, O>(left: seq<L>, right: seq<R>, keyL: L -> K, keyR: R -> K, combine: (L, R) -> O, nullRow: L -> O)
    ensures multiset(OuterLoop(left, right, keyL, keyR, combine, nullRow))
         == multiset(NestedLoop(left, right, keyL, keyR, combine)) + multiset(NullRows(left, right, keyL, keyR, nullRow))
  {
    hide CombineAll, WithKey, Unmatched, OuterRows;
    if left != [] {
      var rs := WithKey(right, keyR, keyL(left[0]));
      OuterJoinMeaning(left[1..], right, keyL, keyR, combine, nullRow);
      OuterRowsSplit(left[0], rs, combine, nullRow);
      UnmatchedIsEmpty(left[0], right, keyL, keyR);
      Interleave(OuterRows(left[0], rs, combine, nullRow), CombineAll(left[0], rs, combine), if |rs| == 0 then [nullRow(left[0])] else [],
                 OuterLoop(left[1..], right, keyL, keyR, combine, nullRow), NestedLoop(left[1..], right, keyL, keyR, combine),
                 NullRows(left[1..], right, keyL, keyR, nullRow));
    }
  }

  lemma OuterRowsSplit<L, R, O>(l: L, rs: seq<R>, combine: (L, R) -> O, nullRow: L -> O)
    ensures multiset(OuterRows(l, rs, combine, nullRow)) == multiset(CombineAll(l, rs, combine)) + multiset(if |rs| == 0 then [nullRow(l)] else [])
  {
    if |rs| == 0 {
      CombineNone(l, rs, combine);
    }
  }

  lemma UnmatchedIsEmpty<L, R, K>(l: L, right: seq<R>, keyL: L -> K, keyR: R -> K)
    ensures Unmatched(l, right, keyL, keyR) <==> |WithKey(right, keyR, keyL(l))| == 0
  {
    NoRowsWithKey(right, keyR, keyL(l));
  }

  lemma Interleave<O>(x: seq<O>, a: seq<O>, b: seq<O>, y: seq<O>, c: seq<O>, d: seq<O>)
    requires multiset(x) == multiset(a) + multiset(b) && multiset(y) == multiset(c) + multiset(d)
    ensures multiset(x + y) == multiset(a + c) + multiset(b + d)
  {
    assert multiset(x + y) == multiset(x) + multiset(y);
    assert multiset(a + c) == multiset(a) + multiset(c);
    assert multiset(b + d) == multiset(b) + multiset(d);
  }

  // ---------- Products and unions ----------

  function MakePair<T, U>(t: T, u: U): (T, U) {
    (t, u)
  }

  function CrossLoop<T, U>(left: seq<T>, right: seq<U>): seq<(T, U)> {
    if left == [] then [] else CombineAll(left[0], right, MakePair) + CrossLoop(left[1..], right)
  }

  method Cross<T, U>(left: seq<T>, right: seq<U>) returns (out: seq<(T, U)>)
    ensures out == CrossLoop(left, right)
  {
    hide CombineAll;
    out := [];
    for i := 0 to |left|
      invariant CrossLoop(left, right) == out + CrossLoop(left[i..], right)
    {
      assert left[i..][0] == left[i] && left[i..][1..] == left[i + 1..];
      ghost var own, rest := CombineAll(left[i], right, MakePair), CrossLoop(left[i + 1..], right);
      assert out + (own + rest) == (out + own) + rest;
      out := EmitMatches(out, left[i], right, MakePair);
    }
    assert left[|left|..] == [];
  }

  lemma {:induction false} CombineAllAt<L, R, O>(l: L, rs: seq<R>, combine: (L, R) -> O)
    ensures |CombineAll(l, rs, combine)| == |rs|
    ensures forall j :: 0 <= j < |rs| ==> CombineAll(l, rs, combine)[j] == combine(l, rs[j])
  {
    if rs != [] {
      CombineAllAt(l, rs[1..], combine);
    }
  }

  // The product holds left row i with right row j at position i * |right| + j.
  lemma {:induction false} CrossMeaning<T, U>(left: seq<T>, right: seq<U>, i: nat, j: nat)
    ensures |CrossLoop(left, right)| == |left| * |right|
    ensures i < |left| && j < |right| ==> i * |right| + j < |left| * |right|
    ensures i < |left| && j < |right| ==> CrossLoop(left, right)[i * |right| + j] == (left[i], right[j])
  {
    if left != [] {
      hide CombineAll;
      var m, n := |right|, |left|;
      var own, rest := CombineAll(left[0], right, MakePair), CrossLoop(left[1..], right);
      CombineAllAt(left[0], right, MakePair);
      CrossMeaning(left[1..], right, if i > 0 then i - 1 else 0, j);
      Rows(i, j, n, m);
      assert CrossLoop(left, right) == own + rest;
      if 0 < i < n && j < m {
        Shifted(own, rest, m, (i - 1) * m + j);
        assert left[1..][i - 1] == left[i];
      }
    }
  }

  lemma Shifted<T>(own: seq<T>, rest: seq<T>, m: nat, k: nat)
    requires |own| == m && k < |rest|
    ensures (own + rest)[m + k] == rest[k]
  {
  }

  lemma RowStep(n: nat, m: nat)
    requires n > 0
    ensures n * m == m + (n - 1) * m
  {
  }

  lemma {:induction false} RowBound(i: nat, j: nat, n: nat, m: nat)
    requires i < n && j < m
    ensures i * m + j < n * m
  {
    RowStep(n, m);
    if i < n - 1 {
      RowBound(i, j, n - 1, m);
    }
  }

  lemma Rows(i: nat, j: nat, n: nat, m: nat)
    requires n > 0
    ensures n * m == m + (n - 1) * m
    ensures i > 0 ==> i * m + j == m + ((i - 1) * m + j)
    ensures i == 0 ==> i * m + j == j
    ensures i < n && j < m ==> i * m + j < n * m
    ensures 0 < i < n && j < m ==> 0 <= (i - 1) * m + j < (n - 1) * m
  {
    RowStep(n, m);
    if i > 0 {
      RowStep(i, m);
    }
    if i < n && j < m {
      RowBound(i, j, n, m);
      if i > 0 {
        RowBound(i - 1, j, n - 1, m);
      }
    }
  }

  // Each value of the two bags once, in the order in which they first occur.
  method UnionDistinct<T(==)>(left: seq<T>, right: seq<T>) returns (out: seq<T>)
    ensures forall x :: x in out <==> x in left || x in right
    ensures forall a, b :: 0 <= a < b < |out| ==> FirstBefore(left + right, out[a], out[b])
  {
    var all := left + right;
    var seen: set<T> := {};
    out := [];
    for i := 0 to |all|
      invariant forall x :: x in seen <==> x in out
      invariant forall x :: x in out <==> x in all[..i]
      invariant forall a, b :: 0 <= a < b < |out| ==> FirstBefore(all, out[a], out[b])
    {
      assert all[..i + 1] == all[..i] + [all[i]];
      if all[i] !in seen {
        forall a | 0 <= a < |out|
          ensures FirstBefore(all, out[a], all[i])
        {
          assert out[a] in out;
          var m :| 0 <= m < i && all[..i][m] == out[a];
          assert all[m] == out[a];
          forall n | 0 <= n <= m
            ensures all[n] != all[i]
          {
            assert all[..i][n] == all[n];
          }
        }
        out := out + [all[i]];
        seen := seen + {all[i]};
      }
    }
    assert all[..|all|] == all;
  }

  // x occurs, and does so before the first y.
  predicate FirstBefore<T(==)>(s: seq<T>, x: T, y: T) {
    exists m :: 0 <= m < |s| && s[m] == x && forall n :: 0 <= n <= m ==> s[n] != y
  }

  // ---------- Equality ----------

  lemma {:induction false} EqualIfCovered<T>(a: multiset<T>, b: multiset<T>)
    requires |a| == |b| && b <= a
    ensures a == b
  {
    assert a == b + (a - b);
  }

  function At<T(==)>(counts: map<T, int>, x: T): int {
    if x in counts then counts[x] else 0
  }

  method CountUp<T(==)>(left: seq<T>) returns (counts: map<T, int>)
    ensures forall x :: At(counts, x) == multiset(left)[x]
  {
    counts := map[];
    for i := 0 to |left|
      invariant forall x :: At(counts, x) == multiset(left[..i])[x]
    {
      assert left[..i + 1] == left[..i] + [left[i]];
      counts := counts[left[i] := At(counts, left[i]) + 1];
    }
    assert left[..|left|] == left;
  }

  // Equality of bags by counting; the counts go up for the left and down for the right.
  method BagEqual<T(==)>(left: seq<T>, right: seq<T>) returns (equal: bool)
    ensures equal <==> multiset(left) == multiset(right)
  {
    if |left| != |right| {
      assert |multiset(left)| != |multiset(right)|;
      return false;
    }
    var counts := CountUp(left);
    for i := 0 to |right|
      invariant forall x :: At(counts, x) + multiset(right[..i])[x] == multiset(left)[x]
      invariant forall x :: At(counts, x) >= 0
    {
      assert right[..i + 1] == right[..i] + [right[i]];
      var c := At(counts, right[i]) - 1;
      if c < 0 {
        MoreOften(left, right, i + 1, right[i]);
        return false;
      }
      counts := counts[right[i] := c];
    }
    assert right[..|right|] == right;
    equal := forall x :: x in counts ==> counts[x] == 0;
    assert multiset(right) <= multiset(left);
    EqualIfCovered(multiset(left), multiset(right));
    assert forall x :: x in counts ==> counts[x] == At(counts, x) == 0;
  }

  // A value that a prefix of the right has more often than the left tells the bags apart.
  lemma MoreOften<T>(left: seq<T>, right: seq<T>, n: nat, x: T)
    requires n <= |right| && multiset(right[..n])[x] > multiset(left)[x]
    ensures multiset(left) != multiset(right)
  {
    assert right == right[..n] + right[n..];
  }
}

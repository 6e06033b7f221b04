/** Greedy matching of two bags under an arbitrary equality. */
module Matching {
  import opened Prelude

  // The last element takes the place of the one removed.
  function SwapRemove<T>(s: seq<T>, i: nat): (r: seq<T>)
    requires i < |s|
    ensures |r| == |s| - 1 && multiset(s) == multiset(r) + multiset{s[i]}
    ensures forall x :: x in r ==> x in s
  {
    var last := |s| - 1;
    if i == last then
      assert s == s[..last] + [s[last]];
      s[..last]
    else
      assert s == s[..i] + [s[i]] + s[i + 1..last] + [s[last]];
      s[..i] + [s[last]] + s[i + 1..last]
  }

  lemma SwapRemoveMoves<T>(s: seq<T>, i: nat, k: nat)
    requires i < |s| && k < |s| - 1
    ensures SwapRemove(s, i)[k] == if k == i then s[|s| - 1] else s[k]
  {
  }

  function FirstMatch<T>(e: T, rows: seq<T>, from: nat, eq: (T, T) -> bool): (k: Option<nat>)
    requires from <= |rows|
    ensures k.Some? ==> from <= k.value < |rows| && eq(e, rows[k.value])
    ensures k.Some? ==> forall i :: from <= i < k.value ==> !eq(e, rows[i])
    ensures k.None? ==> forall i :: from <= i < |rows| ==> !eq(e, rows[i])
    decreases |rows| - from
  {
    if from == |rows| then None else if eq(e, rows[from]) then Some(from) else FirstMatch(e, rows, from + 1, eq)
  }

  datatype Diff<T> = Diff(missing: seq<T>, remaining: seq<T>)

  function BagDiff<T>(expected: seq<T>, remaining: seq<T>, eq: (T, T) -> bool): Diff<T> {
    if expected == [] then Diff([], remaining)
    else
      match FirstMatch(expected[0], remaining, 0, eq)
      case Some(i) => BagDiff(expected[1..], SwapRemove(remaining, i), eq)
      case None =>
        var d := BagDiff(expected[1..], remaining, eq);
        d.(missing := [expected[0]] + d.missing)
  }

  predicate BagMatch<T>(expected: seq<T>, actual: seq<T>, eq: (T, T) -> bool) {
    var d := BagDiff(expected, actual, eq);
    |d.missing| == 0 && |d.remaining| == 0
  }

  method Greedy<T>(expected: seq<T>, actual: seq<T>, eq: (T, T) -> bool) returns (d: Diff<T>)
    ensures d == BagDiff(expected, actual, eq)
  {
    var remaining, missing := actual, [];
    for n := 0 to |expected|
      invariant var d, rest := BagDiff(expected, actual, eq), BagDiff(expected[n..], remaining, eq);
                d.missing == missing + rest.missing && d.remaining == rest.remaining
    {
      assert expected[n..][0] == expected[n] && expected[n..][1..] == expected[n + 1..];
      var i, found := 0, false;
      while i < |remaining| && !found
        invariant 0 <= i <= |remaining|
        invariant found ==> i < |remaining|
        invariant FirstMatch(expected[n], remaining, 0, eq) == if found then Some(i) else FirstMatch(expected[n], remaining, i, eq)
        decreases |remaining| - i, !found
      {
        if eq(expected[n], remaining[i]) {
          found := true;
        } else {
          i := i + 1;
        }
      }
      if found {
        remaining := SwapRemove(remaining, i);
      } else {
        missing := missing + [expected[n]];
      }
    }
    assert expected[|expected|..] == [];
    return Diff(missing, remaining);
  }

  // ---------- What is left over ----------

  predicate AllEqual<T>(xs: seq<T>, ys: seq<T>, eq: (T, T) -> bool) {
    |xs| == |ys| && forall k :: 0 <= k < |xs| ==> eq(xs[k], ys[k])
  }

  // The rows other than those left over are paired off, me[k] with ma[k].
  ghost predicate PairedOff<T>(expected: seq<T>, actual: seq<T>, d: Diff<T>, me: seq<T>, ma: seq<T>, eq: (T, T) -> bool) {
    && AllEqual(me, ma, eq)
    && multiset(expected) == multiset(me) + multiset(d.missing)
    && multiset(actual) == multiset(ma) + multiset(d.remaining)
    && (|d.missing| == 0 ==> me == expected)
  }

  // Whatever the equality is, no row is lost or counted twice.
  lemma {:induction false} MatchingConserves<T>(expected: seq<T>, actual: seq<T>, eq: (T, T) -> bool) returns (me: seq<T>, ma: seq<T>)
    ensures PairedOff(expected, actual, BagDiff(expected, actual, eq), me, ma, eq)
  {
    if expected == [] {
      me, ma := [], [];
    } else {
      var e, rest := expected[0], expected[1..];
      assert expected == [e] + rest;
      match FirstMatch(e, actual, 0, eq) {
        case Some(i) =>
          var me', ma' := MatchingConserves(rest, SwapRemove(actual, i), eq);
          me, ma := [e] + me', [actual[i]] + ma';
        case None =>
          me, ma := MatchingConserves(rest, actual, eq);
      }
    }
  }

  // No missing row equals an unexpected one.
  lemma {:induction false} MatchingIsMaximal<T>(expected: seq<T>, actual: seq<T>, eq: (T, T) -> bool)
    ensures var d := BagDiff(expected, actual, eq);
            && (forall a :: a in d.remaining ==> a in actual)
            && forall e, a :: e in d.missing && a in d.remaining ==> !eq(e, a)
  {
    if expected != [] {
      var e, rest := expected[0], expected[1..];
      match FirstMatch(e, actual, 0, eq) {
        case Some(i) => MatchingIsMaximal(rest, SwapRemove(actual, i), eq);
        case None =>
          MatchingIsMaximal(rest, actual, eq);
          var d := BagDiff(rest, actual, eq);
          assert forall x :: x in [e] + d.missing <==> x == e || x in d.missing;
      }
    }
  }

  // ---------- Pairings ----------

  // Some reordering of the actual rows equals the expected ones row by row.
  ghost predicate Pairable<T(!new)>(expected: seq<T>, actual: seq<T>, eq: (T, T) -> bool) {
    exists q: seq<T> :: multiset(q) == multiset(actual) && AllEqual(expected, q, eq)
  }

  // A match is always justified by a pairing.
  lemma MatchIsPairing<T(!new)>(expected: seq<T>, actual: seq<T>, eq: (T, T) -> bool)
    requires BagMatch(expected, actual, eq)
    ensures Pairable(expected, actual, eq)
  {
    var me, ma := MatchingConserves(expected, actual, eq);
    assert multiset(ma) == multiset(actual) && AllEqual(expected, ma, eq);
  }

  function Keys<T, U>(xs: seq<T>, key: T -> U): seq<U> {
    if xs == [] then [] else [key(xs[0])] + Keys(xs[1..], key)
  }

  lemma {:induction false} KeysAt<T, U>(xs: seq<T>, key: T -> U)
    ensures |Keys(xs, key)| == |xs| && forall k :: 0 <= k < |xs| ==> Keys(xs, key)[k] == key(xs[k])
  {
    if xs != [] {
      KeysAt(xs[1..], key);
    }
  }

  lemma {:induction false} KeysOfConcat<T, U>(xs: seq<T>, ys: seq<T>, key: T -> U)
    ensures Keys(xs + ys, key) == Keys(xs, key) + Keys(ys, key)
  {
    if xs == [] {
      assert xs + ys == ys;
    } else {
      assert (xs + ys)[1..] == xs[1..] + ys;
      KeysOfConcat(xs[1..], ys, key);
    }
  }

  lemma Middle<T>(a: seq<T>, x: T, b: seq<T>)
    ensures multiset(a + [x] + b) == multiset{x} + multiset(a + b)
  {
  }

  lemma Cancel<T>(a: multiset<T>, b: multiset<T>, c: multiset<T>)
    requires c + a == c + b
    ensures a == b
  {
    assert a == (c + a) - c && b == (c + b) - c;
  }

  lemma KeysOfMiddle<T, U>(a: seq<T>, x: T, b: seq<T>, key: T -> U)
    ensures multiset(Keys(a + [x] + b, key)) == multiset{key(x)} + multiset(Keys(a + b, key))
  {
    hide Keys;
    KeysOfConcat(a, b, key);
    KeysOfConcat(a + [x], b, key);
    KeysOfConcat(a, [x], key);
    KeysOfOne(x, key);
    Middle(Keys(a, key), key(x), Keys(b, key));
  }

  lemma KeysOfOne<T, U>(x: T, key: T -> U)
    ensures Keys([x], key) == [key(x)]
  {
    assert [x][1..] == [];
  }

  lemma KeysOfOneOut<T, U>(ys: seq<T>, k: nat, key: T -> U)
    requires k < |ys|
    ensures multiset(ys) == multiset{ys[k]} + multiset(ys[..k] + ys[k + 1..])
    ensures multiset(Keys(ys, key)) == multiset{key(ys[k])} + multiset(Keys(ys[..k] + ys[k + 1..], key))
  {
    hide Keys;
    var a, b := ys[..k], ys[k + 1..];
    assert ys == a + [ys[k]] + b;
    Middle(a, ys[k], b);
    KeysOfMiddle(a, ys[k], b, key);
  }

  // The bag of keys depends only on the bag of rows.
  lemma {:induction false} KeysOfPermutation<T, U>(xs: seq<T>, ys: seq<T>, key: T -> U)
    requires multiset(xs) == multiset(ys)
    ensures multiset(Keys(xs, key)) == multiset(Keys(ys, key))
    decreases |xs|
  {
    hide Keys;
    assert |xs| == |multiset(xs)| == |multiset(ys)| == |ys|;
    if |xs| > 0 {
      assert xs[0] in multiset(ys);
      var k :| 0 <= k < |ys| && ys[k] == xs[0];
      KeysOfOneOut(xs, 0, key);
      KeysOfOneOut(ys, k, key);
      var xs', ys' := xs[..0] + xs[1..], ys[..k] + ys[k + 1..];
      Cancel(multiset(xs'), multiset(ys'), multiset{xs[0]});
      KeysOfPermutation(xs', ys', key);
    }
  }

  lemma KeysOfSplit<T, U>(xs: seq<T>, ys: seq<T>, all: seq<T>, key: T -> U)
    requires multiset(all) == multiset(xs) + multiset(ys)
    ensures multiset(Keys(all, key)) == multiset(Keys(xs, key)) + multiset(Keys(ys, key))
  {
    hide Keys;
    assert multiset(xs + ys) == multiset(all);
    KeysOfPermutation(all, xs + ys, key);
    KeysOfConcat(xs, ys, key);
  }

  // On these rows the equality is that of the keys.
  ghost predicate Keyed<T, U>(expected: seq<T>, actual: seq<T>, eq: (T, T) -> bool, key: T -> U) {
    forall e, a :: e in expected && a in actual ==> (eq(e, a) <==> key(e) == key(a))
  }

  lemma KeysOfEqual<T, U>(xs: seq<T>, ys: seq<T>, expected: seq<T>, actual: seq<T>, eq: (T, T) -> bool, key: T -> U)
    requires Keyed(expected, actual, eq, key) && AllEqual(xs, ys, eq)
    requires multiset(xs) <= multiset(expected) && multiset(ys) <= multiset(actual)
    ensures Keys(xs, key) == Keys(ys, key)
  {
    KeysAt(xs, key);
    KeysAt(ys, key);
    forall k | 0 <= k < |xs|
      ensures key(xs[k]) == key(ys[k])
    {
      assert xs[k] in multiset(xs) && ys[k] in multiset(ys);
      assert xs[k] in multiset(expected) && ys[k] in multiset(actual);
    }
  }

  lemma LeftoversAreRows<T>(expected: seq<T>, actual: seq<T>, eq: (T, T) -> bool)
    ensures forall e :: e in BagDiff(expected, actual, eq).missing ==> e in expected
    ensures forall a :: a in BagDiff(expected, actual, eq).remaining ==> a in actual
  {
    hide BagDiff;
    var d := BagDiff(expected, actual, eq);
    var me, ma := MatchingConserves(expected, actual, eq);
    assert multiset(d.missing) <= multiset(expected);
    forall e | e in d.missing
      ensures e in expected
    {
      assert e in multiset(d.missing);
    }
    MatchingIsMaximal(expected, actual, eq);
  }

  lemma NothingLeft<T, U>(expected: seq<T>, actual: seq<T>, eq: (T, T) -> bool, key: T -> U)
    requires Keyed(expected, actual, eq, key)
    requires var d := BagDiff(expected, actual, eq); multiset(Keys(d.missing, key)) == multiset(Keys(d.remaining, key))
    ensures BagMatch(expected, actual, eq)
  {
    hide BagDiff;
    var d := BagDiff(expected, actual, eq);
    var cm, cr := Keys(d.missing, key), Keys(d.remaining, key);
    KeysAt(d.missing, key);
    KeysAt(d.remaining, key);
    assert |d.missing| == |multiset(cm)| == |multiset(cr)| == |d.remaining|;
    if |d.missing| > 0 {
      assert cm[0] in multiset(cr);
      var k :| 0 <= k < |cr| && cr[k] == cm[0];
      LeftoversAreRows(expected, actual, eq);
      assert eq(d.missing[0], d.remaining[k]);
      MatchingIsMaximal(expected, actual, eq);
      assert false;
    }
  }

  lemma MatchIsSameKeys<T, U>(expected: seq<T>, actual: seq<T>, eq: (T, T) -> bool, key: T -> U)
    requires Keyed(expected, actual, eq, key)
    ensures BagMatch(expected, actual, eq) <==> multiset(Keys(expected, key)) == multiset(Keys(actual, key))
  {
    hide Keys, BagDiff, AllEqual, Keyed;
    var d := BagDiff(expected, actual, eq);
    var me, ma := MatchingConserves(expected, actual, eq);
    KeysOfEqual(me, ma, expected, actual, eq, key);
    KeysOfSplit(me, d.missing, expected, key);
    KeysOfSplit(ma, d.remaining, actual, key);
    if BagMatch(expected, actual, eq) {
      assert d.missing == d.remaining;
    }
    if multiset(Keys(expected, key)) == multiset(Keys(actual, key)) {
      Cancel(multiset(Keys(d.missing, key)), multiset(Keys(d.remaining, key)), multiset(Keys(me, key)));
      NothingLeft(expected, actual, eq, key);
    }
  }

  // When the equality is that of keys, a pairing is found whenever there is one, and
  // there is one exactly when both sides have the same bag of keys.
  lemma PairingIsMatch<T(!new), U>(expected: seq<T>, actual: seq<T>, eq: (T, T) -> bool, key: T -> U)
    requires Keyed(expected, actual, eq, key)
    ensures BagMatch(expected, actual, eq) <==> Pairable(expected, actual, eq)
    ensures BagMatch(expected, actual, eq) <==> multiset(Keys(expected, key)) == multiset(Keys(actual, key))
  {
    hide Keys, BagMatch, AllEqual, Keyed;
    MatchIsSameKeys(expected, actual, eq, key);
    if BagMatch(expected, actual, eq) {
      MatchIsPairing(expected, actual, eq);
    }
    if Pairable(expected, actual, eq) {
      var q: seq<T> :| multiset(q) == multiset(actual) && AllEqual(expected, q, eq);
      KeysOfEqual(expected, q, expected, actual, eq, key);
      KeysOfPermutation(q, actual, key);
    }
  }
}

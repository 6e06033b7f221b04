/** The constant folding of range(start, end, step). */
module Range {
  import opened Prelude
  import opened Lqa

  predicate Going(i: int, end: int, step: int) {
    (step > 0 && i <= end) || (step < 0 && i >= end)
  }

  // The number of elements of the progression.
  function Count(start: int, end: int, step: int): nat
    requires step != 0
  {
    if !Going(start, end, step) then 0
    else if step > 0 then (end - start) / step + 1
    else (start - end) / -step + 1
  }

  lemma {:induction false} CountStep(start: int, end: int, step: int)
    requires step != 0 && Going(start, end, step)
    ensures Count(start, end, step) == 1 + Count(start + step, end, step)
  {
    if step > 0 {
      DivideLess(end - start, step);
    } else {
      DivideLess(start - end, -step);
    }
  }

  lemma DivideLess(d: nat, s: nat)
    requires s > 0
    ensures d >= s ==> (d - s) / s + 1 == d / s
    ensures d < s ==> d / s == 0
  {
    if d >= s {
      var q := d / s;
      assert d == q * s + d % s;
      assert d - s == (q - 1) * s + d % s;
      DivideUnique(d - s, s, q - 1, d % s);
    }
  }

  lemma MulAtLeast(k: int, s: int)
    requires k >= 1 && s > 0
    ensures k * s >= s
  {
    assert k * s == (k - 1) * s + s;
  }

  lemma DivideUnique(d: nat, s: nat, q: int, r: nat)
    requires s > 0 && d == q * s + r && r < s
    ensures d / s == q
  {
    var q', r' := d / s, d % s;
    assert (q - q') * s == r' - r;
    if q' < q {
      MulAtLeast(q - q', s);
    } else if q' > q {
      MulAtLeast(q' - q, s);
    }
  }

  lemma OneMore(i: int, n: int, step: int)
    ensures i + (1 + n) * step == (i + step) + n * step
  {
  }

  // The k-th element is start + k * step, and there are Count of them.
  lemma {:induction false} ProgressionIsArithmetic(start: int, end: int, step: int)
    requires step != 0
    ensures |Progression(start, end, step)| == Count(start, end, step)
    ensures forall k :: 0 <= k < Count(start, end, step) ==> Progression(start, end, step)[k] == start + k * step
    decreases if step > 0 then end - start else start - end
  {
    if Going(start, end, step) {
      CountStep(start, end, step);
      var rest := Progression(start + step, end, step);
      ProgressionIsArithmetic(start + step, end, step);
      forall k | 0 <= k < Count(start, end, step)
        ensures Progression(start, end, step)[k] == start + k * step
      {
        if k > 0 {
          assert rest[k - 1] == start + step + (k - 1) * step;
          OneMore(start, k - 1, step);
        }
      }
    }
  }

  // What the loop leaves in `items` when it starts with i, or None when an increment leaves i64.
  function Loop(i: int, end: int, step: int): Option<seq<int>>
    requires step != 0
    decreases if step > 0 then end - i else i - end
  {
    if !Going(i, end, step) then Some([])
    else if !FitsI64(i + step) then None
    else
      var rest :- Loop(i + step, end, step);
      Some([i] + rest)
  }

  lemma SignOfProduct(n: nat, step: int)
    ensures step > 0 ==> n * step >= 0
    ensures step < 0 ==> n * step <= 0
  {
  }

  // The fold yields the progression exactly when the last increment fits i64.
  lemma {:induction false} LoopIsProgression(i: int, end: int, step: int)
    requires step != 0 && FitsI64(i) && FitsI64(end)
    ensures Loop(i, end, step).Some? <==> FitsI64(i + Count(i, end, step) * step)
    ensures Loop(i, end, step).Some? ==> Loop(i, end, step).value == Progression(i, end, step)
    decreases if step > 0 then end - i else i - end
  {
    if Going(i, end, step) {
      CountStep(i, end, step);
      var n := Count(i + step, end, step);
      hide Count;
      OneMore(i, n, step);
      SignOfProduct(n, step);
      if FitsI64(i + step) {
        LoopIsProgression(i + step, end, step);
      }
    }
  }

  function After(items: seq<int>, rest: Option<seq<int>>): Option<seq<int>> {
    if rest.None? then None else Some(items + rest.value)
  }

  method FoldRange(start: int, end: int, step: int) returns (r: Option<seq<int>>)
    requires step != 0 && FitsI64(start) && FitsI64(end)
    ensures r.Some? <==> FitsI64(start + Count(start, end, step) * step)
    ensures r.Some? ==> r.value == Progression(start, end, step)
  {
    LoopIsProgression(start, end, step);
    var items := [];
    var i := start;
    assert Loop(i, end, step).Some? ==> items + Loop(i, end, step).value == Loop(i, end, step).value;
    while Going(i, end, step)
      invariant Loop(start, end, step) == After(items, Loop(i, end, step))
      decreases if step > 0 then end - i else i - end
    {
      ghost var rest := Loop(i + step, end, step);
      assert rest.Some? ==> items + ([i] + rest.value) == (items + [i]) + rest.value;
      items := items + [i];
      if !FitsI64(i + step) {
        return None;
      }
      i := i + step;
    }
    assert items + [] == items;
    return Some(items);
  }
}

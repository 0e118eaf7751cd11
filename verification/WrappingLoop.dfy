/** Loops whose variable is an unsigned machine word: `for (i = first; i <= end; i += step)` with a step that divides
    the modulus, starting on a multiple of it. */
module WrappingLoop {
  import opened Bits

  /** The variable's value after n turns. */
  function LoopVar(first: nat, step: nat, modulus: nat, n: nat): (i: nat)
    requires first < modulus
    ensures i < modulus
  {
    if n == 0 then first else (LoopVar(first, step, modulus, n - 1) + step) % modulus
  }

  lemma {:induction false} LoopVarAligned(first: nat, step: nat, count: nat, n: nat)
    requires step > 0 && first < step * count && first % step == 0
    ensures LoopVar(first, step, step * count, n) % step == 0 && LoopVar(first, step, step * count, n) <= step * count - step
  {
    if n > 0 {
      LoopVarAligned(first, step, count, n - 1);
      NextAligned(LoopVar(first, step, step * count, n - 1), step, count);
    } else {
      NextAligned(first, step, count);
    }
  }

  lemma NextAligned(i: nat, step: nat, count: nat)
    requires step > 0 && i < step * count && i % step == 0
    ensures i <= step * count - step && (i + step) % (step * count) % step == 0 && (i + step) % (step * count) <= step * count - step
  {
    var q := i / step;
    assert i == step * q;
    if q >= count { MulMono(step, count, q); }
    MulMono(step, q + 1, count);
    assert i + step == step * (q + 1);
    if q + 1 == count {
      DivModUnique(i + step, step * count, 1, 0);
      DivModUnique(0, step, 0, 0);
    } else {
      MulMono(step, q + 2, count);
      assert step * (q + 2) == i + step + step;
      DivModUnique(i + step, step * count, 0, i + step);
      DivModUnique(i + step, step, q + 1, 0);
    }
  }

  lemma {:induction false} LoopVarCounts(first: nat, step: nat, modulus: nat, n: nat)
    requires first + step * n < modulus
    ensures LoopVar(first, step, modulus, n) == first + step * n
  {
    if n > 0 {
      assert step * n == step * (n - 1) + step;
      LoopVarCounts(first, step, modulus, n - 1);
      DivModUnique(first + step * n, modulus, 0, first + step * n);
    }
  }

  /** The variable ever passes the end, which is what ends the loop, exactly when one more step fits behind the end. */
  lemma EndsIff(first: nat, step: nat, count: nat, end: nat)
    requires step > 0 && first < step * count && first % step == 0 && end < step * count
    ensures (exists n: nat :: LoopVar(first, step, step * count, n) > end) <==> end + step < step * count
  {
    if end + step < step * count {
      var n := if first > end then 0 else (end - first) / step + 1;
      if first <= end { Reaches(end - first, step); }
      LoopVarCounts(first, step, step * count, n);
      assert LoopVar(first, step, step * count, n) > end;
    } else {
      forall n: nat ensures LoopVar(first, step, step * count, n) <= end { LoopVarAligned(first, step, count, n); }
    }
  }

  lemma Reaches(distance: nat, step: nat)
    requires step > 0
    ensures distance < step * (distance / step + 1) <= distance + step
  {
    var q := distance / step;
    assert distance == step * q + distance % step && step * (q + 1) == step * q + step;
  }
}

/** How the block gas limit moves towards a desired value. */
module GasLimit {

  const MIN_GAS_LIMIT: nat := 5000
  const BOUND_DIVISOR: nat := 1024
  const WORD: nat := 0x1_0000_0000_0000_0000

  /** The limit that is aimed at. */
  function Target(desired: nat): nat {
    if desired < MIN_GAS_LIMIT then MIN_GAS_LIMIT else desired
  }

  /** The next block's limit; all arithmetic is on 64-bit words. */
  function CalcGasLimit(parent: nat, desired: nat): (limit: nat)
    requires parent < WORD && desired < WORD
    ensures limit < WORD
  {
    var delta := (parent / BOUND_DIVISOR - 1) % WORD;
    var target := Target(desired);
    if parent < target then
      var up := (parent + delta) % WORD;
      if up > target then target else up
    else if parent > target then
      var down := (parent - delta) % WORD;
      if down < target then target else down
    else parent
  }

  /** The largest step is below the parent's 1024th part; moving up must not leave the word. */
  predicate Clear(parent: nat, desired: nat) {
    parent < Target(desired) ==> parent + parent / BOUND_DIVISOR - 1 < WORD
  }

  function Distance(a: nat, b: nat): nat {
    if a < b then b - a else a - b
  }

  function Min(a: int, b: int): int {
    if a < b then a else b
  }

  /** One step changes the limit by the most that the bound allows, towards the target and not past it. */
  lemma OneStep(parent: nat, desired: nat)
    requires 2 * BOUND_DIVISOR <= parent < WORD && desired < WORD && Clear(parent, desired)
    ensures var next := CalcGasLimit(parent, desired);
      && Distance(next, parent) < parent / BOUND_DIVISOR
      && Distance(next, parent) == Min(parent / 1024 - 1, Distance(parent, Target(desired)))
      && (parent <= Target(desired) ==> parent <= next <= Target(desired))
      && (parent >= Target(desired) ==> Target(desired) <= next <= parent)
      && (parent != Target(desired) ==> Distance(next, Target(desired)) < Distance(parent, Target(desired)))
  {
    var delta: nat := parent / BOUND_DIVISOR - 1;
    assert 0 < delta < parent && delta % WORD == delta;
    if parent < Target(desired) {
      assert (parent + delta) % WORD == parent + delta;
    } else if parent > Target(desired) {
      assert (parent - delta) % WORD == parent - delta;
    }
  }

  /** A step up that leaves the word goes the wrong way, and only such a step does. */
  lemma UpUnlessOverflow(parent: nat, desired: nat)
    requires 2 * BOUND_DIVISOR <= parent < Target(desired) && desired < WORD
    ensures parent < CalcGasLimit(parent, desired) <= Target(desired) <==> Clear(parent, desired)
  {
  }

  function Iterate(parent: nat, desired: nat, n: nat): (limit: nat)
    requires parent < WORD && desired < WORD
    ensures limit < WORD
    decreases n
  {
    if n == 0 then parent else Iterate(CalcGasLimit(parent, desired), desired, n - 1)
  }

  /**
   From any limit of at least twice the divisor, and so from any legal one, the target is reached in at most as
   many blocks as it is away, and kept from then on.
   */
  lemma {:induction false} Converges(parent: nat, desired: nat, n: nat)
    requires 2 * BOUND_DIVISOR <= parent < WORD && Target(desired) + Target(desired) / BOUND_DIVISOR <= WORD
    requires desired < WORD && n >= Distance(parent, Target(desired))
    ensures Iterate(parent, desired, n) == Target(desired) == if desired < 5000 then 5000 else desired
    decreases n
  {
    if n > 0 {
      var next := CalcGasLimit(parent, desired);
      OneStep(parent, desired);
      Converges(next, desired, n - 1);
    }
  }

  /** No block of a run that starts at or above the minimum has a limit below it. */
  lemma {:induction false} NeverBelowMinimum(parent: nat, desired: nat, n: nat)
    requires MIN_GAS_LIMIT <= parent < WORD && Target(desired) + Target(desired) / BOUND_DIVISOR <= WORD && desired < WORD
    ensures Iterate(parent, desired, n) >= MIN_GAS_LIMIT
    decreases n
  {
    if n > 0 {
      OneStep(parent, desired);
      NeverBelowMinimum(CalcGasLimit(parent, desired), desired, n - 1);
    }
  }

  /** Between one and two times the divisor the step is zero, and the limit never moves. */
  lemma {:induction false} StuckBelow(parent: nat, desired: nat, n: nat)
    requires BOUND_DIVISOR <= parent < 2 * BOUND_DIVISOR && desired < WORD
    ensures Iterate(parent, desired, n) == parent != Target(desired)
    decreases n
  {
    assert parent / BOUND_DIVISOR == 1;
    if n > 0 {
      StuckBelow(parent, desired, n - 1);
    }
  }
}

/**
 * The arithmetic of the Galois register (Util/Lfsr.php): the mask derived
 * from the feedback term and the one-step transition, with what they
 * guarantee about the sequence of states.
 */
module Galois {
  import opened Bits

  /**
   * The register mask for a feedback term: the all-ones number with as many
   * binary digits as the feedback term, that is the smallest 2^k - 1 that is
   * at least `feedback`.
   */
  function MaskOf(feedback: nat): (mask: nat)
    requires feedback >= 1
    ensures feedback <= mask < 2 * feedback
    ensures BitLength(mask) == BitLength(feedback) && mask + 1 == Pow2(BitLength(mask))
  {
    BitLengthOfAllOnes(BitLength(feedback));
    Pow2(BitLength(feedback)) - 1
  }

  /** No all-ones number below the mask covers the feedback term. */
  lemma {:induction false} MaskIsSmallest(feedback: nat, k: nat)
    requires feedback >= 1 && feedback <= Pow2(k) - 1
    ensures MaskOf(feedback) <= Pow2(k) - 1
  {
    var width := BitLength(feedback);
    if k < width {
      Pow2Monotone(k, width - 1);
    }
    Pow2Monotone(width, k);
  }

  /**
   * The feedback applied in one step: the whole feedback term when the bit
   * shifted out is 1, nothing when it is 0; `TapsAsWritten` shows this is
   * `-($state & 1) & $this->feedback`.
   */
  function Taps(value: nat, feedback: nat): (r: nat)
    ensures value % 2 == 0 ==> r == 0
    ensures value % 2 == 1 ==> r == feedback
  {
    if value % 2 == 1 then feedback else 0
  }

  /**
   * The source's expression: the negated outgoing bit is all ones in two's
   * complement when the bit is 1 (all ones over the feedback term's width
   * suffices) and 0 when it is 0; anded with the feedback term it gives `Taps`.
   */
  lemma TapsAsWritten(value: nat, feedback: nat)
    ensures Taps(value, feedback) == And(if value % 2 == 1 then Pow2(BitLength(feedback)) - 1 else 0, feedback)
  {
    AndCommutes(Pow2(BitLength(feedback)) - 1, feedback);
    AndAllOnes(feedback, BitLength(feedback));
  }

  /** One Galois step: shift right, fold the taps back in, keep the register's width. */
  function Step(value: nat, feedback: nat, mask: nat): (next: nat)
    ensures next <= mask
  {
    And(Xor(value / 2, Taps(value, feedback)), mask)
  }

  /** The highest bit of the register, bit k - 1 of a k-bit feedback term. */
  function TopBit(feedback: nat): nat
    requires feedback >= 1
  {
    Pow2(BitLength(feedback) - 1)
  }

  /**
   * Inside the register the mask cuts nothing off, and the step sets the top
   * bit exactly when the outgoing bit was 1.
   */
  lemma StepInRegister(value: nat, feedback: nat)
    requires feedback >= 1 && value <= MaskOf(feedback)
    ensures Step(value, feedback, MaskOf(feedback)) == Xor(value / 2, Taps(value, feedback))
    ensures value % 2 == 1 ==> TopBit(feedback) <= Step(value, feedback, MaskOf(feedback))
    ensures value % 2 == 0 ==> Step(value, feedback, MaskOf(feedback)) == value / 2 < TopBit(feedback)
  {
    var k := BitLength(feedback);
    var x := Xor(value / 2, Taps(value, feedback));
    assert value / 2 < Pow2(k - 1);
    if value % 2 == 1 {
      XorKeepsTopBit(value / 2, feedback, k);
    } else {
      XorZero(value / 2);
      Pow2Monotone(k - 1, k);
    }
    AndAllOnes(x, k);
  }

  /**
   * A state in 1..mask never steps to 0, so the step keeps the rule that the
   * state setter enforces. This needs `mask < 2 * feedback`, which holds for
   * the mask that the feedback setter derives.
   */
  lemma StepNeverZero(value: nat, feedback: nat)
    requires feedback >= 1 && 1 <= value <= MaskOf(feedback)
    ensures 1 <= Step(value, feedback, MaskOf(feedback)) <= MaskOf(feedback)
  {
    StepInRegister(value, feedback);
  }

  /** The bundle's default feedback term 0xC has four binary digits and mask 15. */
  lemma MaskOfTwelve()
    ensures BitLength(12) == 4 && Pow2(4) == 16 && MaskOf(12) == 15
  {
    assert BitLength(12) == 4 by {
      assert BitLength(0) == 0 && BitLength(1) == 1 && BitLength(3) == 2 && BitLength(6) == 3;
    }
    assert Pow2(4) == 16 by {
      assert Pow2(0) == 1 && Pow2(1) == 2 && Pow2(2) == 4 && Pow2(3) == 8;
    }
  }

  /** A state above the mask can step to 0: with feedback 12, 25 >> 1 is 12 and 12 ^ 12 is 0. */
  lemma OverflowingStateStepsToZero()
    ensures MaskOf(12) == 15 && Step(25, 12, 15) == 0
  {
    MaskOfTwelve();
  }

  /** From state 1 the first step yields the feedback term itself. */
  lemma StateOneStepsToFeedback(feedback: nat)
    requires feedback >= 1
    ensures Step(1, feedback, MaskOf(feedback)) == feedback
  {
    XorZeroLeft(feedback);
    AndAllOnes(feedback, BitLength(feedback));
  }

  /** The step undone: where the value came from, read off its top bit. */
  function Unstep(next: nat, feedback: nat): nat
    requires feedback >= 1
  {
    if next >= TopBit(feedback) then 2 * Xor(next, feedback) + 1 else 2 * next
  }

  /** Undoing a step gives back the state it started from, for every state in 0..mask. */
  lemma UnstepStep(value: nat, feedback: nat)
    requires feedback >= 1 && value <= MaskOf(feedback)
    ensures Unstep(Step(value, feedback, MaskOf(feedback)), feedback) == value
  {
    StepInRegister(value, feedback);
    if value % 2 == 1 {
      XorCancel(value / 2, feedback);
    }
  }

  /** The step is one-to-one on the register's states. */
  lemma StepInjective(v: nat, w: nat, feedback: nat)
    requires feedback >= 1 && v <= MaskOf(feedback) && w <= MaskOf(feedback)
    requires Step(v, feedback, MaskOf(feedback)) == Step(w, feedback, MaskOf(feedback))
    ensures v == w
  {
    UnstepStep(v, feedback);
    UnstepStep(w, feedback);
  }

  /** The state reached after `n` steps. */
  function Orbit(value: nat, feedback: nat, mask: nat, n: nat): nat
  {
    if n == 0 then value else Step(Orbit(value, feedback, mask, n - 1), feedback, mask)
  }

  /** From a state in 1..mask, no number of steps ever reaches 0. */
  lemma {:induction false} OrbitNeverZero(value: nat, feedback: nat, n: nat)
    requires feedback >= 1 && 1 <= value <= MaskOf(feedback)
    ensures 1 <= Orbit(value, feedback, MaskOf(feedback), n) <= MaskOf(feedback)
  {
    if n > 0 {
      OrbitNeverZero(value, feedback, n - 1);
      StepNeverZero(Orbit(value, feedback, MaskOf(feedback), n - 1), feedback);
    }
  }

  /** Two equal states along an orbit: the start recurs after their distance. */
  lemma {:induction false} OrbitCancel(value: nat, feedback: nat, i: nat, j: nat)
    requires feedback >= 1 && value <= MaskOf(feedback) && i <= j
    requires Orbit(value, feedback, MaskOf(feedback), i) == Orbit(value, feedback, MaskOf(feedback), j)
    ensures Orbit(value, feedback, MaskOf(feedback), j - i) == value
    decreases i
  {
    if i > 0 {
      OrbitStepBack(value, feedback, i, j);
      OrbitCancel(value, feedback, i - 1, j - 1);
    }
  }

  /** Equal states after `i` and `j` steps had equal predecessors, by injectivity. */
  lemma OrbitStepBack(value: nat, feedback: nat, i: nat, j: nat)
    requires feedback >= 1 && value <= MaskOf(feedback) && 0 < i <= j
    requires Orbit(value, feedback, MaskOf(feedback), i) == Orbit(value, feedback, MaskOf(feedback), j)
    ensures Orbit(value, feedback, MaskOf(feedback), i - 1) == Orbit(value, feedback, MaskOf(feedback), j - 1)
  {
    var mask := MaskOf(feedback);
    OrbitBounded(value, feedback, i - 1);
    OrbitBounded(value, feedback, j - 1);
    StepInjective(Orbit(value, feedback, mask, i - 1), Orbit(value, feedback, mask, j - 1), feedback);
  }

  lemma {:induction false} OrbitBounded(value: nat, feedback: nat, n: nat)
    requires feedback >= 1 && value <= MaskOf(feedback)
    ensures Orbit(value, feedback, MaskOf(feedback), n) <= MaskOf(feedback)
  {
    if n > 0 {
      OrbitBounded(value, feedback, n - 1);
    }
  }

  /**
   * Every state in 1..mask comes back: the sequence of states is periodic
   * from its very first state, with a period of at most `mask` steps.
   */
  lemma OrbitReturns(value: nat, feedback: nat)
    requires feedback >= 1 && 1 <= value <= MaskOf(feedback)
    ensures exists period :: 1 <= period <= MaskOf(feedback) && Orbit(value, feedback, MaskOf(feedback), period) == value
  {
    var mask := MaskOf(feedback);
    var states := seq(mask + 1, n requires 0 <= n => Orbit(value, feedback, mask, n));
    forall n | 0 <= n < |states|
      ensures 1 <= states[n] <= mask
    {
      OrbitNeverZero(value, feedback, n);
    }
    if forall i, j :: 0 <= i < j < |states| ==> states[i] != states[j] {
      DistinctWithin(states, mask);
      assert false;
    }
    var i, j :| 0 <= i < j < |states| && states[i] == states[j];
    OrbitCancel(value, feedback, i, j);
  }

  /** The set of the elements of a sequence. */
  function Elements(s: seq<nat>): set<nat>
  {
    set i | 0 <= i < |s| :: s[i]
  }

  /** A sequence without repeats has as many distinct elements as positions. */
  lemma {:induction false} DistinctElements(s: seq<nat>)
    requires forall i, j :: 0 <= i < j < |s| ==> s[i] != s[j]
    ensures |Elements(s)| == |s|
  {
    if s != [] {
      var init := s[..|s| - 1];
      assert Elements(s) == Elements(init) + {s[|s| - 1]};
      assert s[|s| - 1] !in Elements(init);
      DistinctElements(init);
    }
  }

  /** The numbers 1..n. */
  function UpTo(n: nat): (r: set<nat>)
    ensures |r| == n
    ensures forall x :: x in r ==> 1 <= x <= n
  {
    if n == 0 then {} else UpTo(n - 1) + {n}
  }

  lemma {:induction false} InUpTo(x: nat, n: nat)
    requires 1 <= x <= n
    ensures x in UpTo(n)
  {
    if x < n {
      InUpTo(x, n - 1);
    }
  }

  lemma {:induction false} SubsetSize(a: set<nat>, b: set<nat>)
    requires a <= b
    ensures |a| <= |b|
    decreases |a|
  {
    if a != {} {
      var x :| x in a;
      SubsetSize(a - {x}, b - {x});
    }
  }

  /** Pigeonhole: a sequence without repeats, drawn from 1..n, has at most n elements. */
  lemma DistinctWithin(s: seq<nat>, n: nat)
    requires forall i, j :: 0 <= i < j < |s| ==> s[i] != s[j]
    requires forall i :: 0 <= i < |s| ==> 1 <= s[i] <= n
    ensures |s| <= n
  {
    DistinctElements(s);
    forall x | x in Elements(s)
      ensures x in UpTo(n)
    {
      InUpTo(x, n);
    }
    SubsetSize(Elements(s), UpTo(n));
  }
}

/**
 * The register object of Util/Lfsr.php: a Galois linear feedback shift
 * register whose state is either a plain integer or, when an alphabet is
 * set, a numeral written in that alphabet, optionally left-filled to the
 * width of the mask.
 */
module Util {
  import opened Bits
  import opened Galois
  import opened Numerals

  datatype Option<T> = None | Some(value: T)

  /** A PHP value as the setters receive it, by the kinds the setters tell apart. */
  datatype PhpValue = Null | Bool(b: bool) | Int(i: int) | Str(s: string)

  /** Why a setter throws `InvalidArgumentException`. */
  datatype Error = InvalidFeedback | ZeroState | StateNotString | ZeroSymbolState

  datatype Outcome = Pass | Fail(error: Error)

  /**
   * `is_int($feedback) && $feedback >= 1`: an accepted term has a mask, and
   * from state 1 the register steps to the term itself.
   */
  predicate FeedbackAccepted(v: PhpValue)
    ensures FeedbackAccepted(v) ==> v.Int? && v.i >= 1 && Step(1, v.i, MaskOf(v.i)) == v.i
  {
    if v.Int? && v.i >= 1 then StateOneStepsToFeedback(v.i); true else false
  }

  /**
   * The checks of `setState`, in their order, against the alphabet set at
   * the time of the call; the comparisons are strict (`===`).
   */
  function StateCheck(base: Option<string>, v: PhpValue): (r: Outcome)
    requires base.Some? ==> |base.value| >= 1
    ensures r.Pass? <==> (base.None? ==> v != Int(0)) && (base.Some? ==> v.Str? && v.s != [base.value[0]])
    ensures r.Fail? && base.None? ==> r.error == ZeroState
    ensures r.Fail? && base.Some? ==> r.error == if v.Str? then ZeroSymbolState else StateNotString
  {
    if base.None? && v == Int(0) then Fail(ZeroState)
    else if base.Some? && !v.Str? then Fail(StateNotString)
    else if base.Some? && v == Str([base.value[0]]) then Fail(ZeroSymbolState)
    else Pass
  }

  /**
   * The padding width `setPad` stores: the number of symbols of the mask in
   * the alphabet when there is one and the flag is exactly `true`, else none.
   */
  function PadWidth(mask: nat, base: Option<string>, v: PhpValue): (r: Option<nat>)
    requires base.Some? ==> ConvertibleAlphabet(base.value)
    ensures r.Some? <==> base.Some? && v == Bool(true)
    ensures r.Some? ==> r.value == |Encode(mask, base.value)| >= 1
    ensures r.Some? ==> forall n: nat :: n <= mask ==> |Encode(n, base.value)| <= r.value
  {
    if base.Some? && v == Bool(true) then
      EncodeWidthCovers(mask, base.value);
      Some(|Encode(mask, base.value)|)
    else
      None
  }

  /** `str_pad($s, $width, $fill, STR_PAD_LEFT)`: fill on the left up to the width, never cut. */
  function PadLeft(s: string, width: nat, fill: char): (r: string)
    ensures |r| == if |s| >= width then |s| else width
    ensures r[|r| - |s|..] == s
    ensures forall i :: 0 <= i < |r| - |s| ==> r[i] == fill
  {
    if |s| >= width then s else seq(width - |s|, _ => fill) + s
  }

  /** Left-filling a numeral with the zero symbol keeps its value. */
  lemma PaddedNumeral(digits: string, width: nat, a: string)
    requires ValidAlphabet(a) && AllIn(digits, a)
    ensures AllIn(PadLeft(digits, width, a[0]), a)
    ensures Decode(PadLeft(digits, width, a[0]), a) == Decode(digits, a)
  {
    var r := PadLeft(digits, width, a[0]);
    var zeros := r[..|r| - |digits|];
    assert r == zeros + digits;
    DecodeLeadingZeros(zeros, digits, a);
  }

  /** The value of `base` that a configuration array may assign. */
  predicate AssignableBase(v: PhpValue)
  {
    v == Null || (v.Str? && ConvertibleAlphabet(v.s))
  }

  function BaseOf(v: PhpValue): Option<string>
  {
    if v.Str? then Some(v.s) else None
  }

  /** The first failing setter of a `config` call, checked with the alphabet set before the call. */
  function ConfigOutcome(config: map<string, PhpValue>, base: Option<string>): Outcome
    requires base.Some? ==> |base.value| >= 1
  {
    if "feedback" in config && !FeedbackAccepted(config["feedback"]) then Fail(InvalidFeedback)
    else if "state" in config then StateCheck(base, config["state"])
    else Pass
  }

  /**
   * A state `next` can work on: a non-negative integer without an alphabet,
   * a numeral over the alphabet with one.
   */
  predicate Steppable(state: PhpValue, base: Option<string>)
  {
    match base
    case None => state.Int? && state.i >= 0
    case Some(b) => state.Str? && AllIn(state.s, b)
  }

  /** The number a state stands for. */
  function ValueOf(state: PhpValue, base: Option<string>): nat
    requires Steppable(state, base)
  {
    match base
    case None => state.i
    case Some(b) => Decode(state.s, b)
  }

  /** The state `next` stores and returns. */
  function NextState(feedback: nat, mask: nat, state: PhpValue, base: Option<string>, pad: Option<nat>): (r: PhpValue)
    requires base.Some? ==> ConvertibleAlphabet(base.value)
    requires Steppable(state, base)
    ensures Steppable(r, base)
  {
    var next := Step(ValueOf(state, base), feedback, mask);
    match base
    case None => Int(next)
    case Some(b) =>
      var digits := Encode(next, b);
      PaddedNumeral(digits, if pad.Some? then pad.value else 0, b);
      Str(if pad.Some? && pad.value != 0 then PadLeft(digits, pad.value, b[0]) else digits)
  }

  /** The new state stands for the stepped value, whether written in an alphabet and padded or not. */
  lemma NextStateValue(feedback: nat, mask: nat, state: PhpValue, base: Option<string>, pad: Option<nat>)
    requires base.Some? ==> ConvertibleAlphabet(base.value)
    requires Steppable(state, base)
    ensures ValueOf(NextState(feedback, mask, state, base, pad), base)
         == Step(ValueOf(state, base), feedback, mask)
  {
    if base.Some? {
      var b := base.value;
      var next := Step(ValueOf(state, base), feedback, mask);
      var digits := Encode(next, b);
      DecodeEncode(next, b);
      if pad.Some? && pad.value != 0 {
        PaddedNumeral(digits, pad.value, b);
        assert NextState(feedback, mask, state, base, pad) == Str(PadLeft(digits, pad.value, b[0]));
      } else {
        assert NextState(feedback, mask, state, base, pad) == Str(digits);
      }
    }
  }

  /** With padding computed for the current mask, every new state is exactly that wide. */
  lemma NextStateWidth(feedback: nat, mask: nat, state: PhpValue, base: Option<string>)
    requires base.Some? && ConvertibleAlphabet(base.value)
    requires Steppable(state, base)
    ensures |NextState(feedback, mask, state, base, PadWidth(mask, base, Bool(true))).s|
         == |Encode(mask, base.value)|
  {
    EncodeLengthMonotone(Step(ValueOf(state, base), feedback, mask), mask, base.value);
  }

  /**
   * From a state standing for 1..mask the new state stands for 1..mask again,
   * and `setState` would accept it: `next` never produces 0 or the lone zero
   * symbol.
   */
  lemma NextStateAccepted(feedback: nat, state: PhpValue, base: Option<string>, pad: Option<nat>)
    requires feedback >= 1
    requires base.Some? ==> ConvertibleAlphabet(base.value)
    requires Steppable(state, base) && 1 <= ValueOf(state, base) <= MaskOf(feedback)
    ensures 1 <= ValueOf(NextState(feedback, MaskOf(feedback), state, base, pad), base) <= MaskOf(feedback)
    ensures StateCheck(base, NextState(feedback, MaskOf(feedback), state, base, pad)) == Pass
  {
    var r := NextState(feedback, MaskOf(feedback), state, base, pad);
    StepNeverZero(ValueOf(state, base), feedback);
    NextStateValue(feedback, MaskOf(feedback), state, base, pad);
    if base.Some? && r.s == [base.value[0]] {
      OnlyZeros(r.s, base.value);
      assert false;
    }
  }

  /** What `__construct` yields: the object, or the exception of the first failing setter. */
  datatype Construction = Created(lfsr: Lfsr) | Failed(error: Error)

  class Lfsr {
    var feedback: nat
    var mask: nat
    var state: PhpValue
    var base: Option<string>
    var pad: Option<nat>

    /** An alphabet, when set, is one that numerals can be written in. */
    ghost predicate AlphabetOk()
      reads this
    {
      base.Some? ==> ConvertibleAlphabet(base.value)
    }

    /** A usable register: a feedback term and the mask derived from it. */
    ghost predicate Valid()
      reads this
    {
      AlphabetOk() && feedback >= 1 && mask == MaskOf(feedback)
    }

    /** The object before the constructor body runs: every property still null. */
    constructor Blank()
      ensures feedback == 0 && mask == 0 && state == Null && base == None && pad == None
    {
      feedback, mask, state, base, pad := 0, 0, Null, None, None;
    }

    /**
     * `__construct`: the feedback setter, then the state setter while no
     * alphabet is set yet, then the alphabet, then the padding.
     */
    static method New(feedback: PhpValue, state: PhpValue, base: Option<string>, pad: PhpValue) returns (r: Construction)
      requires base.Some? ==> ConvertibleAlphabet(base.value)
      ensures !FeedbackAccepted(feedback) ==> r == Failed(InvalidFeedback)
      ensures FeedbackAccepted(feedback) && state == Int(0) ==> r == Failed(ZeroState)
      ensures FeedbackAccepted(feedback) && state != Int(0) ==>
        && r.Created? && fresh(r.lfsr) && r.lfsr.Valid()
        && r.lfsr.feedback == feedback.i && r.lfsr.state == state && r.lfsr.base == base
        && r.lfsr.pad == PadWidth(r.lfsr.mask, base, pad)
    {
      var lfsr := new Lfsr.Blank();
      var outcome := lfsr.SetFeedback(feedback);
      if outcome.Fail? {
        return Failed(outcome.error);
      }
      outcome := lfsr.SetState(state);
      if outcome.Fail? {
        return Failed(outcome.error);
      }
      lfsr.base := base;
      lfsr.SetPad(pad);
      return Created(lfsr);
    }

    /**
     * `setFeedback`: reject anything but an integer of at least 1, otherwise
     * store it and build the mask one bit per remaining binary digit.
     */
    method SetFeedback(v: PhpValue) returns (outcome: Outcome)
      modifies this`feedback, this`mask
      ensures outcome == if FeedbackAccepted(v) then Pass else Fail(InvalidFeedback)
      ensures outcome.Pass? ==> feedback == v.i && mask == MaskOf(v.i)
      ensures outcome.Fail? ==> feedback == old(feedback) && mask == old(mask)
    {
      if !v.Int? || v.i < 1 {
        return Fail(InvalidFeedback);
      }
      feedback := v.i;
      var rest: nat := v.i / 2;
      var m: nat := 1;
      while rest != 0
        invariant BitLength(rest) < BitLength(v.i)
        invariant m + 1 == Pow2(BitLength(v.i) - BitLength(rest))
      {
        m := m * 2;
        m := m + 1;
        rest := rest / 2;
      }
      mask := m;
      outcome := Pass;
    }

    /** `setState`: store the value as given unless one of the three checks rejects it. */
    method SetState(v: PhpValue) returns (outcome: Outcome)
      requires AlphabetOk()
      modifies this`state
      ensures outcome == StateCheck(base, v)
      ensures state == if outcome.Pass? then v else old(state)
    {
      if base.None? && v == Int(0) {
        return Fail(ZeroState);
      }
      if base.Some? && !v.Str? {
        return Fail(StateNotString);
      }
      if base.Some? && v == Str([base.value[0]]) {
        return Fail(ZeroSymbolState);
      }
      state := v;
      outcome := Pass;
    }

    /** `setPad`: the mask's length in the alphabet when asked for with `true`, else no padding. */
    method SetPad(v: PhpValue)
      requires AlphabetOk()
      modifies this`pad
      ensures pad == PadWidth(mask, base, v)
    {
      if base.Some? && v == Bool(true) {
        DecimalLookalikes();
        var digits := ConvBase(Encode(mask, Decimal), Decimal, base.value);
        ConvertFromDecimal(mask, base.value);
        pad := Some(|digits|);
      } else {
        pad := None;
      }
    }

    /**
     * `config`: apply the keys present, in the order feedback, state, base,
     * pad, stopping at the first setter that throws; what was applied before
     * stays applied. The alphabet is assigned without checks and the padding
     * width is only recomputed when `pad` is given.
     */
    method Config(config: map<string, PhpValue>) returns (outcome: Outcome)
      requires Valid()
      requires "base" in config ==> AssignableBase(config["base"])
      modifies this
      ensures Valid()
      ensures outcome == ConfigOutcome(config, old(base))
      ensures feedback == if "feedback" in config && FeedbackAccepted(config["feedback"])
                          then config["feedback"].i else old(feedback)
      ensures state == if ("feedback" !in config || FeedbackAccepted(config["feedback"]))
                          && "state" in config && StateCheck(old(base), config["state"]).Pass?
                       then config["state"] else old(state)
      ensures base == if outcome.Pass? && "base" in config then BaseOf(config["base"]) else old(base)
      ensures pad == if outcome.Pass? && "pad" in config then PadWidth(mask, base, config["pad"]) else old(pad)
    {
      if "feedback" in config {
        outcome := SetFeedback(config["feedback"]);
        if outcome.Fail? {
          return;
        }
      }
      if "state" in config {
        outcome := SetState(config["state"]);
        if outcome.Fail? {
          return;
        }
      }
      if "base" in config {
        base := BaseOf(config["base"]);
      }
      if "pad" in config {
        SetPad(config["pad"]);
      }
      outcome := Pass;
    }

    /**
     * `convBase` on the paths the register uses: unchanged when the alphabets
     * are equal, the accumulation loop into decimal, the division loop out of
     * decimal.
     */
    static method ConvBase(number: string, from: string, to: string) returns (r: string)
      requires ConvertibleAlphabet(from) && ConvertibleAlphabet(to) && AllIn(number, from)
      requires from == to || from == Decimal || to == Decimal
      ensures r == Convert(number, from, to)
    {
      if from == to {
        return number;
      }
      if to == Decimal {
        var value := DecodeDigits(number, from);
        return Encode(value, Decimal);
      }
      r := EncodeDigits(Decode(number, Decimal), to);
    }

    /**
     * `next`: read the state as a number, take one Galois step within the
     * mask, write it back in the alphabet (left-filled to the padding width)
     * when there is one, store it and return it.
     */
    method Next() returns (r: PhpValue)
      requires Valid() && Steppable(state, base)
      modifies this`state
      ensures r == NextState(feedback, mask, old(state), base, pad)
      ensures state == r
    {
      DecimalLookalikes();
      var value: nat;
      if base.Some? {
        var decimal := ConvBase(state.s, base.value, Decimal);
        value := Decode(decimal, Decimal);
      } else {
        value := state.i;
      }
      var next := Step(value, feedback, mask);
      if base.Some? {
        var digits := ConvBase(Encode(next, Decimal), Decimal, base.value);
        ConvertFromDecimal(next, base.value);
        if pad.Some? && pad.value != 0 {
          digits := PadLeft(digits, pad.value, base.value[0]);
        }
        r := Str(digits);
      } else {
        r := Int(next);
      }
      state := r;
    }
  }
}

/**
 * Concrete runs of the register, worked out by the verifier: the bundle's
 * default configuration (DependencyInjection/Configuration.php), a binary
 * alphabet with padding, and the setters' rejections and quirks.
 */
module Scenarios {
  import opened Galois
  import opened Numerals
  import opened Util

  /** Feedback 0xC: mask 15, and the first step from state 1 gives 12. */
  lemma FeedbackTwelve()
    ensures MaskOf(12) == 15
    ensures Step(1, 12, 15) == 12 && Step(12, 12, 15) == 6
  {
    MaskOfTwelve();
    StateOneStepsToFeedback(12);
    StepInRegister(12, 12);
  }

  /** `setState` does not bound the state by the mask, and `next` can then reach 0. */
  lemma OverflowingState()
    ensures StateCheck(None, Int(25)) == Pass
    ensures NextState(12, 15, Int(25), None, None) == Int(0)
  {
    OverflowingStateStepsToZero();
  }

  /**
   * Alphabets that the loose comparison of `convBase` confuses with
   * "0123456789" are not among the alphabets the register model assigns.
   */
  lemma LookalikeAlphabets()
    ensures !AssignableBase(Str("123456789")) && !AssignableBase(Str("+123456789"))
    ensures AssignableBase(Str("01")) && AssignableBase(Str("0123456789"))
  {
    DecimalLookalikes();
  }

  /** The defaults: feedback 0xC, state 1, no alphabet, no padding. */
  method DefaultConfiguration()
  {
    var c := Lfsr.New(Int(12), Int(1), None, Bool(false));
    var lfsr := c.lfsr;
    FeedbackTwelve();
    assert lfsr.mask == 15 && lfsr.pad == None;
    var r := lfsr.Next();
    assert r == Int(12) && lfsr.state == Int(12);
    r := lfsr.Next();
    assert r == Int(6);
  }

  /** The alphabet "01": 15 is "1111", 12 is "1100", 6 is "110", and "1" is 1. */
  lemma BinaryNumerals()
    ensures ValidAlphabet("01")
    ensures Encode(15, "01") == "1111" && Encode(12, "01") == "1100" && Encode(6, "01") == "110"
    ensures Decode("1", "01") == 1
  {
    var binary := "01";
    assert Encode(1, binary) == "1" && Encode(3, binary) == "11" && Encode(7, binary) == "111";
    assert Encode(6, binary) == "110";
    assert "1"[..0] == [];
  }

  /** The alphabet "01" with padding: every state is four symbols wide. */
  method BinaryPadded()
  {
    FeedbackTwelve();
    BinaryNumerals();
    var c := Lfsr.New(Int(12), Str("1"), Some("01"), Bool(true));
    var lfsr := c.lfsr;
    assert lfsr.pad == Some(4);
    assert ValueOf(Str("1"), Some("01")) == 1;
    assert PadLeft("1100", 4, '0') == "1100";
    assert NextState(12, 15, Str("1"), Some("01"), Some(4)) == Str("1100");
    var r := lfsr.Next();
    assert r == Str("1100");
    DecodeEncode(12, "01");
    assert ValueOf(r, Some("01")) == 12;
    NextStateValue(12, 15, r, Some("01"), Some(4));
    NextStateWidth(12, 15, r, Some("01"));
    assert PadWidth(15, Some("01"), Bool(true)) == Some(4);
    assert PadLeft("110", 4, '0') == "0110";
    r := lfsr.Next();
    assert |r.s| == 4 && Decode(r.s, "01") == 6;
    assert r == Str("0110");
  }

  /** What the constructor rejects. */
  method Rejections()
  {
    var c := Lfsr.New(Int(0), Int(1), None, Bool(false));
    assert c == Failed(InvalidFeedback);
    c := Lfsr.New(Str("12"), Int(1), None, Bool(false));
    assert c == Failed(InvalidFeedback);
    c := Lfsr.New(Int(12), Int(0), None, Bool(false));
    assert c == Failed(ZeroState);
  }

  /**
   * The constructor checks the state before it sets the alphabet, so the
   * lone zero symbol gets through there; `config` rejects it afterwards, but
   * only exactly that string.
   */
  method ZeroSymbolState()
  {
    BinaryNumerals();
    var c := Lfsr.New(Int(12), Str("0"), Some("01"), Bool(false));
    assert c.Created?;
    var lfsr := c.lfsr;
    var o := lfsr.Config(map["state" := Str("0")]);
    assert o == Fail(Error.ZeroSymbolState);
  }

  /** With an alphabet, `setState` wants a string, and only the lone zero symbol is refused. */
  method AlphabetStates()
  {
    BinaryNumerals();
    var c := Lfsr.New(Int(12), Str("1"), Some("01"), Bool(false));
    var lfsr := c.lfsr;
    var o := lfsr.Config(map["state" := Int(1)]);
    assert o == Fail(StateNotString);
    o := lfsr.Config(map["state" := Str("00")]);
    assert o == Pass && lfsr.state == Str("00");
  }

  /** `config` is not atomic: a failing state leaves the new feedback term applied. */
  method PartialConfig()
  {
    var c := Lfsr.New(Int(12), Int(1), None, Bool(false));
    var lfsr := c.lfsr;
    var o := lfsr.Config(map["feedback" := Int(3), "state" := Int(0), "pad" := Bool(true)]);
    assert o == Fail(ZeroState);
    assert lfsr.feedback == 3 && lfsr.state == Int(1) && lfsr.pad == None;
  }
}

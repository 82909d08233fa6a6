# Galois LFSR with custom alphabets, in Dafny

This project models the `Lfsr` class of the WokLfsrBundle (`Util/Lfsr.php`): a
Galois linear feedback shift register whose state is a plain integer or, when
an alphabet is configured, a numeral written in that alphabet, optionally
left-filled with the alphabet's zero symbol to the width of the mask.

- `bits.dfy` (module `Bits`): the native operators `>>`, `^` and `&` of the step,
  as functions on unbounded naturals, with the facts the step needs.
- `galois.dfy` (module `Galois`): the mask derived from the feedback term, the
  Galois step, and what repeated steps do (never 0, one-to-one, every state in
  1..mask comes back within `mask` steps).
- `numerals.dfy` (module `Numerals`): `convBase`'s arithmetic. `Decode` and
  `Encode` are the specification functions. `DecodeDigits` and
  `EncodeDigits` are its two loops, each proved equal to its function.
- `lfsr.dfy` (module `Util`): the class `Lfsr` with fields `feedback`, `mask`,
  `state`, `base`, `pad`. Its methods mirror `__construct`, `config`,
  `convBase`, `setFeedback`, `setState`, `setPad` and `next`. `NextState` is
  the function that specifies `next`, with the lemmas about it.
- `scenarios.dfy` (module `Scenarios`): worked runs. They cover the bundle's
  default configuration (feedback 0xC, state 1, no alphabet, no padding; the
  first `next` gives 12), the alphabet `"01"` with padding (`"1100"`, then
  `"0110"`), and the setters' rejections and quirks.

PHP values handed to the setters are a datatype `PhpValue` (`Null`, `Bool`,
`Int`, `Str`), so the strict checks `is_int`, `=== 0`, `is_string` and
`=== true` are modelled as written. A thrown `InvalidArgumentException` is an
`Outcome` (`Fail(error)`). For the constructor it is a `Construction`
(`Failed(error)`): `Lfsr.New` allocates a blank object and runs the setters in
the constructor's order.

Behaviour the model keeps as the code has it:

- The constructor calls `setState` before it assigns `base`. So with an
  alphabet, construction checks none of the alphabet rules: state `"0"` over
  `"01"` is accepted by the constructor, and `config` rejects it afterwards.
- `setState` compares with the single zero symbol exactly, so `"00"` is accepted.
  It never bounds the state by the mask. A state above the mask can step to 0
  (feedback 12, state 25).
- `config` is not atomic. A failing setter leaves the keys before it applied.
  It assigns `base` without checks, and it recomputes the padding width only
  when `pad` is given, so the width can go stale.
- `next` tests the padding with a loose `!= null`, so a width of 0, like
  `false`, means no padding.
- Only the identity path and the paths into and out of decimal of `convBase` work.
  The general path calls `convBase` as a free function (line 108) and is
  never reached from the class.
- `convBase` compares alphabets with PHP's loose `==` (lines 80, 92, 107). Two
  numeric strings compare by value, so an alphabet such as `"123456789"` or
  `"+123456789"` counts as equal to `"0123456789"` and takes the identity
  shortcut. The predicate `DecimalLookalike` in `numerals.dfy` describes these
  alphabets, and the model leaves them out (see below).

## Model

| member | source | states |
|---|---|---|
| `Bits.BitLength` | Util/Lfsr.php:139-143 | the number of binary digits that the mask loop walks: `2^(k-1) <= n < 2^k` for `n >= 1` |
| `Bits.Xor` | Util/Lfsr.php:204 | bitwise `^` on naturals: the result never exceeds the sum of the operands |
| `Bits.And` | Util/Lfsr.php:205 | masking can only clear bits: the result is at most either operand, so a step never exceeds the mask |
| `Bits.AndAllOnes` | Util/Lfsr.php:205 | masking with `2^k - 1` leaves every `k`-bit value unchanged |
| `Bits.XorCancel` | Util/Lfsr.php:204 | xor-ing the same feedback term twice gives the value back |
| `Bits.XorKeepsTopBit` | Util/Lfsr.php:204 | xor of a narrower value with a `k`-bit feedback term keeps bit `k-1` and stays below `2^k` |
| `Galois.MaskOf` | Util/Lfsr.php:138-144 | the mask is all ones (`mask + 1 = 2^k`), has the feedback term's bit length, and `feedback <= mask < 2 * feedback` (12 gives 15) |
| `Galois.MaskIsSmallest` | Util/Lfsr.php:139-143 | no all-ones number below the mask is at least the feedback term |
| `Galois.Taps` | Util/Lfsr.php:204 | the feedback term folded in when the outgoing bit is 1; nothing when it is 0 |
| `Galois.TapsAsWritten` | Util/Lfsr.php:204 | the selection equals the source's `-($state & 1) & $this->feedback`, with the negated bit as all ones over the feedback term's width |
| `Galois.StateOneStepsToFeedback` | Util/Lfsr.php:204-205 | from state 1 the first step yields the feedback term itself |
| `Galois.MaskOfTwelve` | Util/Lfsr.php:138-144 | the default feedback term 12 has four binary digits and mask 15 |
| `Galois.Step` | Util/Lfsr.php:204-205 | the stepped value never exceeds the mask |
| `Galois.StepInRegister` | Util/Lfsr.php:204-205 | within the register the mask cuts nothing off; an odd value steps to at least the top bit, an even one to `value / 2`, below it |
| `Galois.StepNeverZero` | Util/Lfsr.php:204-205 | a state in 1..mask steps to a state in 1..mask, never 0 |
| `Galois.OverflowingStateStepsToZero` | Util/Lfsr.php:204-205 | feedback 12 has mask 15, and the state 25, above the mask, steps to 0 |
| `Galois.UnstepStep` | Util/Lfsr.php:204-205 | the step can be undone on 0..mask: `Unstep(Step(v)) = v` |
| `Galois.StepInjective` | Util/Lfsr.php:204-205 | two states in 0..mask with the same successor are equal |
| `Galois.OrbitNeverZero` | Util/Lfsr.php:194-217 | from a state in 1..mask, any number of steps stays in 1..mask |
| `Galois.OrbitCancel` | Util/Lfsr.php:194-217 | if the states after `i` and `j` steps agree, the start recurs after `j - i` steps |
| `Galois.OrbitReturns` | Util/Lfsr.php:194-217 | every state in 1..mask recurs after some number of steps between 1 and `mask` |
| `Numerals.Pow` | Util/Lfsr.php:100 | `bcpow`: a positive base raised to any exponent is at least 1, so every symbol position has a nonzero weight |
| `Numerals.Decode` | Util/Lfsr.php:92-104 | the value of a numeral read most significant symbol first, each symbol worth its position in the alphabet; the specification that `DecodeDigits`, `DecodeBelow`, `DecodeEncode` and `EncodeDecode` are proved against |
| `Numerals.DecodeBelow` | Util/Lfsr.php:92-104 | an `n`-symbol numeral is worth less than the base to the `n` |
| `Numerals.DecimalLookalikes` | Util/Lfsr.php:80 | `"123456789"`, `"+123456789"` and `"123456789.0"` are alphabets the loose comparison confuses with `"0123456789"`; `"0123456789"`, `"01"` and `"987654321"` are not |
| `Numerals.IndexOf` | Util/Lfsr.php:99 | `array_search`: the first position of the symbol in the alphabet |
| `Numerals.IndexOfSymbol` | Util/Lfsr.php:99 | in an alphabet without repeats, a symbol's digit value is its position |
| `Numerals.Encode` | Util/Lfsr.php:114-121 | the numeral of a value has at least one symbol, all from the alphabet |
| `Numerals.DecodeEncode` | Util/Lfsr.php:114-121 | writing a value in an alphabet of at least two distinct symbols and reading it back gives the value |
| `Numerals.EncodeDecode` | Util/Lfsr.php:92-104 | reading a numeral without a leading zero symbol (or the lone zero) and writing the value back gives the numeral |
| `Numerals.DecodePositive` | Util/Lfsr.php:92-104 | a numeral that does not start with the zero symbol has a value of at least 1 |
| `Numerals.DecodeLeadingZeros` | Util/Lfsr.php:210 | zero symbols on the left do not change a numeral's value |
| `Numerals.EncodeLengthMonotone` | Util/Lfsr.php:180-181 | a value up to the mask never needs more symbols than the mask |
| `Numerals.Convert` | Util/Lfsr.php:78-124 | for alphabets that are not decimal lookalikes: equal alphabets give the input back; otherwise the result is over the target alphabet and has the same value as the input |
| `Numerals.ConvertFromDecimal` | Util/Lfsr.php:80-121 | converting the decimal string of a value into an alphabet that is not a decimal lookalike gives that value's numeral in the alphabet, on the identity path too |
| `Numerals.DecodeDigits` | Util/Lfsr.php:92-104 | the accumulation loop computes the sum of each symbol's digit value times the base to the power of the symbols after it, which is `Decode` |
| `Numerals.EncodeDigits` | Util/Lfsr.php:114-122 | the single-symbol shortcut and the divide-and-prepend loop compute `Encode` |
| `Util.FeedbackAccepted` | Util/Lfsr.php:135 | an accepted feedback term is an integer of at least 1, and from state 1 the register steps to the term itself |
| `Util.StateCheck` | Util/Lfsr.php:157-165 | a state passes exactly when it is not integer 0 without an alphabet, and is a string other than the lone zero symbol with one; a failure names the first check that fails |
| `Util.PadWidth` | Util/Lfsr.php:179-185 | a width exists exactly when there is an alphabet and the flag is `true`; it is the length of the mask's numeral, and no numeral of a value up to the mask is longer |
| `Util.PadLeft` | Util/Lfsr.php:210 | `str_pad` on the left: length is the larger of the string's and the width, the string is the suffix, the rest is the fill symbol |
| `Util.PaddedNumeral` | Util/Lfsr.php:209-211 | a numeral left-filled with the zero symbol is still over the alphabet and has the same value |
| `Util.NextState` | Util/Lfsr.php:194-217 | the new state is an integer without an alphabet and a numeral over the alphabet with one |
| `Util.NextStateValue` | Util/Lfsr.php:196-211 | the new state, padded or not, stands for the stepped value of the old state |
| `Util.NextStateWidth` | Util/Lfsr.php:177-187 | with the width that `setPad(true)` computes for the current mask, every new state is exactly that many symbols long |
| `Util.NextStateAccepted` | Util/Lfsr.php:155-168 | from a state standing for 1..mask, the new state stands for 1..mask again and `setState` would accept it (never 0, never the lone zero symbol) |
| `Util.Lfsr.Blank` | Util/Lfsr.php:11-21 | a new object has every property null (feedback and mask 0, no state, no alphabet, no padding) |
| `Util.Lfsr.New` | Util/Lfsr.php:31-37 | a bad feedback term fails first, then integer state 0; otherwise a fresh valid register holding the feedback term, the state verbatim, the alphabet, and the padding width for the new mask |
| `Util.Lfsr.SetFeedback` | Util/Lfsr.php:133-146 | anything but an integer of at least 1 is rejected and nothing changes; otherwise the feedback term is stored and the shift loop builds `MaskOf(feedback)` |
| `Util.Lfsr.SetState` | Util/Lfsr.php:155-168 | rejects integer 0 without an alphabet, a non-string with one, and exactly the lone zero symbol; on rejection the state is unchanged, otherwise it is stored verbatim; nothing else changes |
| `Util.Lfsr.SetPad` | Util/Lfsr.php:177-187 | the width is the mask's length in the alphabet when there is one and the flag is exactly `true`, otherwise no padding; nothing else changes |
| `Util.Lfsr.Config` | Util/Lfsr.php:45-60 | only keys present are applied, in the order feedback, state, base, pad; the first failing setter stops it with earlier keys applied; base is assigned unchecked; the padding width changes only when `pad` is given |
| `Util.Lfsr.ConvBase` | Util/Lfsr.php:78-124 | equal to `Convert`: identity shortcut, accumulation into decimal, division out of decimal |
| `Util.Lfsr.Next` | Util/Lfsr.php:194-217 | stores and returns `NextState` of the old state, and changes nothing else |
| `Scenarios.FeedbackTwelve` | DependencyInjection/Configuration.php:20-22 | the default feedback term 0xC has mask 15; state 1 steps to 12, and 12 steps to 6 |
| `Scenarios.OverflowingState` | Util/Lfsr.php:155-168 | `setState` accepts 25 while the mask of feedback 12 is 15, and `next` then yields 0 |
| `Scenarios.LookalikeAlphabets` | Util/Lfsr.php:80 | `"123456789"` and `"+123456789"` are not alphabets the register model assigns; `"01"` and `"0123456789"` are |

## Left out

- The general alphabet-to-alphabet path of `convBase` (Util/Lfsr.php:107-109) calls `convBase` as a free function and would fail at run time. `Convert` and `Lfsr.ConvBase` require one of the alphabets to be `"0123456789"` or both to be equal, which covers every call the class makes.
- Numerals.Convert, Util.Lfsr.ConvBase: they require alphabets that are not `DecimalLookalike`, so the loose `==` of lines 80, 92 and 107 agrees with string equality. The model therefore says nothing about a register whose alphabet PHP finds numerically equal to `"0123456789"` (such as `"123456789"`). In PHP, such a register reads its state as a decimal number, returns decimal strings from `next` and pads them with the alphabet's first symbol. `Util.AssignableBase` and the preconditions of `Util.Lfsr.New`, `Util.Lfsr.Config`, `Util.NextState`, `Util.PadWidth` and `Util.Lfsr.SetPad` exclude these alphabets. The exclusion is slightly broader than PHP's comparison: it also drops alphabets that use only numeric-string characters and contain the digits 1 to 9 in a row but that PHP tells apart from `"0123456789"`, such as `"-123456789"` and the keyboard-order digits `"1234567890"` (worth 1234567890, not 123456789).
- A symbol missing from the source alphabet (`array_search` returning `false`) is excluded by the precondition that every symbol is in the alphabet.
- Alphabets: `Lfsr.New` and `Lfsr.Config` require an alphabet value to be `null` or a string of at least two distinct symbols that is not a decimal lookalike. Other values for `base` (an integer, `false`, an empty or one-symbol string) are not modelled. A one-symbol alphabet would make the division loop run forever.
- Type juggling in `next`: without an alphabet the state must be a non-negative integer; with one it must be a string over the alphabet. `next` on a string, `null`, a boolean or a negative integer without an alphabet is not modelled. Neither is an integer state with an alphabet, which the constructor lets through.
- Integers are unbounded. PHP's 64-bit overflow and its conversion to float are not modelled, nor is the arithmetic right shift of negative numbers.
- bcmath's decimal strings are naturals inside `Decode` and `Encode`. `ConvBase` and `Next` keep the decimal string between the two halves of a conversion and read it back with `Decode(_, "0123456789")`, which is what PHP's numeric reading of such a string does.
- PHP strings are bytes and `str_split` splits bytes. The model's symbols are characters, so multi-byte symbols are not modelled.
- The setters' fluent `return $this` is not modelled. They return an `Outcome`, and `config` returns an `Outcome` instead of the object.
- The Symfony container wiring (DependencyInjection/WokLfsrExtension.php) and configuration schema (DependencyInjection/Configuration.php) are not part of this model. Their defaults appear only as the scenario in `scenarios.dfy`.

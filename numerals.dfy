/**
 * Positional numerals over custom alphabets, the arithmetic behind
 * `Lfsr::convBase` (Util/Lfsr.php). A symbol's position in the alphabet is
 * its digit value; the most significant symbol comes first. Decimal values,
 * which the source keeps as bcmath strings, are naturals here.
 */
module Numerals {

  /** The alphabet that every conversion goes through. */
  const Decimal: string := "0123456789"

  /** At least two symbols and none of them twice. */
  predicate ValidAlphabet(a: string)
  {
    |a| >= 2 && forall i, j :: 0 <= i < j < |a| ==> a[i] != a[j]
  }

  /** Every symbol of `s` belongs to the alphabet `a`. */
  predicate AllIn(s: string, a: string)
  {
    forall i :: 0 <= i < |s| ==> s[i] in a
  }

  /** A character that can occur in a PHP numeric string: digits, signs, point, exponent, whitespace. */
  predicate NumericChar(c: char)
  {
    '0' <= c <= '9' || c == '+' || c == '-' || c == '.' || c == 'e' || c == 'E'
    || c == ' ' || c == '\t' || c == '\n' || c == '\r' || c as int == 11 || c as int == 12
  }

  /**
   * An alphabet other than "0123456789" that PHP's loose `==` may still find
   * equal to it, because two numeric strings compare by value: "123456789",
   * "+123456789" and "123456789.0" all equal "0123456789". With no symbol
   * repeated, an alphabet of value 123456789 is made of numeric characters
   * and holds the digits 1 to 9 in a row, which is what this tests.
   */
  predicate DecimalLookalike(a: string)
  {
    && a != Decimal
    && (forall i :: 0 <= i < |a| ==> NumericChar(a[i]))
    && HasDigitRun(a)
  }

  /** The digits 1 to 9, in this order, occur next to each other somewhere in `a`. */
  predicate HasDigitRun(a: string)
  {
    |a| >= 9 && (a[..9] == "123456789" || HasDigitRun(a[1..]))
  }

  /**
   * An alphabet the conversions handle: a valid one that the loose
   * comparisons of `convBase` tell apart from "0123456789".
   */
  predicate ConvertibleAlphabet(a: string)
  {
    ValidAlphabet(a) && !DecimalLookalike(a)
  }

  /** Some alphabets the loose comparison confuses with "0123456789", and some it does not. */
  lemma DecimalLookalikes()
    ensures DecimalLookalike("123456789") && DecimalLookalike("+123456789") && DecimalLookalike("123456789.0")
    ensures ConvertibleAlphabet(Decimal) && ConvertibleAlphabet("01") && ConvertibleAlphabet("987654321")
  {
    assert "123456789"[..9] == "123456789";
    assert "+123456789"[1..][..9] == "123456789";
    assert "123456789.0"[..9] == "123456789";
    assert "987654321"[..9][0] != "123456789"[0];
    assert !HasDigitRun("987654321"[1..]);
  }

  /** The digit value of a symbol: its first position in the alphabet (PHP's `array_search`). */
  function IndexOf(a: string, c: char): (r: nat)
    requires c in a
    ensures r < |a| && a[r] == c
    ensures forall j :: 0 <= j < r ==> a[j] != c
  {
    if a[0] == c then 0 else 1 + IndexOf(a[1..], c)
  }

  /** In an alphabet without repeats, position and digit value agree. */
  lemma IndexOfSymbol(a: string, i: nat)
    requires ValidAlphabet(a) && i < |a|
    ensures IndexOf(a, a[i]) == i
  {
  }

  /** `b` raised to `e` (bcmath's `bcpow`). */
  function Pow(b: nat, e: nat): (p: nat)
    ensures b >= 1 ==> p >= 1
  {
    if e == 0 then 1 else b * Pow(b, e - 1)
  }

  /** The value of a numeral, most significant symbol first. */
  function Decode(s: string, a: string): (n: nat)
    requires AllIn(s, a)
  {
    if s == [] then 0 else Decode(s[..|s| - 1], a) * |a| + IndexOf(a, s[|s| - 1])
  }

  /** An n-symbol numeral is worth less than the base to the n. */
  lemma {:induction false} DecodeBelow(s: string, a: string)
    requires AllIn(s, a)
    ensures Decode(s, a) < Pow(|a|, |s|)
  {
    if s != [] {
      var init := s[..|s| - 1];
      DecodeBelow(init, a);
      DigitBound(Decode(init, a), IndexOf(a, s[|s| - 1]), |a|, Pow(|a|, |init|));
    }
  }

  /** Appending a symbol shifts the value by one position and adds its digit. */
  lemma DecodeSnoc(s: string, c: char, a: string)
    requires AllIn(s, a) && c in a
    ensures AllIn(s + [c], a)
    ensures Decode(s + [c], a) == Decode(s, a) * |a| + IndexOf(a, c)
  {
    assert (s + [c])[..|s|] == s;
  }

  /** A one-symbol numeral is worth its symbol's digit value. */
  lemma DecodeSingle(c: char, a: string)
    requires c in a
    ensures AllIn([c], a) && Decode([c], a) == IndexOf(a, c)
  {
    assert [c][..0] == [];
  }

  // Facts about natural-number arithmetic that the proofs below cite; they
  // say nothing about the register itself.

  lemma DivMod(n: nat, b: nat)
    requires b >= 1
    ensures n == n / b * b + n % b && n % b < b
  {
  }

  lemma DivMonotone(m: nat, n: nat, b: nat)
    requires b >= 1 && m <= n
    ensures m / b <= n / b
  {
    DivMod(m, b);
    DivMod(n, b);
    if m / b > n / b {
      MulMonotone(n / b + 1, m / b, b);
      assert false;
    }
  }

  /** Division by `b` recovers quotient and remainder. */
  lemma DivModUnique(q: nat, r: nat, b: nat)
    requires r < b
    ensures (q * b + r) / b == q && (q * b + r) % b == r
  {
    var n := q * b + r;
    DivMod(n, b);
    if n / b > q {
      MulMonotone(q + 1, n / b, b);
      assert false;
    }
    if n / b < q {
      MulMonotone(n / b + 1, q, b);
      assert false;
    }
  }

  lemma MulDistrib(x: nat, y: nat, z: nat)
    ensures (x + y) * z == x * z + y * z
  {
  }

  /** Dividing by a base of at least 2 makes a positive number smaller. */
  lemma DivShrinks(n: nat, b: nat)
    requires b >= 2 && n >= 1
    ensures n / b < n
  {
  }

  /** A number below the base is its own remainder and has quotient 0. */
  lemma SmallDivMod(r: nat, b: nat)
    requires r < b
    ensures r / b == 0 && r % b == r
  {
  }

  lemma MulAssoc(x: nat, y: nat, z: nat)
    ensures x * (y * z) == (x * y) * z
  {
  }

  /** A number below `p` followed by a digit below `b` stays below `b * p`. */
  lemma DigitBound(q: nat, d: nat, b: nat, p: nat)
    requires q < p && d < b
    ensures q * b + d < b * p
  {
    MulMonotone(q + 1, p, b);
  }

  lemma MulMonotone(x: nat, y: nat, b: nat)
    requires x <= y
    ensures x * b <= y * b
  {
  }

  /**
   * The shortest numeral of `n`: the single symbol `a[n]` when `n` is below
   * the base, otherwise the symbols of `n / |a|` followed by that of `n % |a|`.
   * A base below 2 would never finish dividing, hence the precondition.
   */
  function Encode(n: nat, a: string): (s: string)
    requires |a| >= 2
    ensures |s| >= 1 && AllIn(s, a)
    decreases n
  {
    if n < |a| then [a[n]] else Encode(n / |a|, a) + [a[n % |a|]]
  }

  /**
   * What `convBase` returns on the paths the register reaches: the number
   * itself when both alphabets are equal, otherwise its value written in the
   * target alphabet, going through the decimal value.
   */
  function Convert(number: string, from: string, to: string): (r: string)
    requires ConvertibleAlphabet(from) && ConvertibleAlphabet(to) && AllIn(number, from)
    requires from == to || from == Decimal || to == Decimal
    ensures from == to ==> r == number
    ensures AllIn(r, to) && Decode(r, to) == Decode(number, from)
  {
    if from == to then
      number
    else if to == Decimal then
      DecodeEncode(Decode(number, from), Decimal);
      Encode(Decode(number, from), Decimal)
    else
      DecodeEncode(Decode(number, Decimal), to);
      Encode(Decode(number, Decimal), to)
  }

  /** Writing a number and reading it back gives the number. */
  lemma {:induction false} DecodeEncode(n: nat, a: string)
    requires ValidAlphabet(a)
    ensures Decode(Encode(n, a), a) == n
    decreases n
  {
    var base := |a|;
    if n < base {
      assert Encode(n, a) == [a[n]];
      DecodeSingle(a[n], a);
      IndexOfSymbol(a, n);
    } else {
      var high, low := Encode(n / base, a), n % base;
      DivShrinks(n, base);
      DecodeEncode(n / base, a);
      assert Decode(high + [a[low]], a) == (n / base) * base + low by {
        DecodeSnoc(high, a[low], a);
        IndexOfSymbol(a, low);
      }
      assert (n / base) * base + low == n by {
        DivMod(n, base);
      }
      assert Encode(n, a) == high + [a[low]];
    }
  }

  /**
   * Writing a number in decimal and converting that to an alphabet gives the
   * number written in the alphabet, on the identity path too.
   */
  lemma ConvertFromDecimal(n: nat, to: string)
    requires ConvertibleAlphabet(to)
    ensures Convert(Encode(n, Decimal), Decimal, to) == Encode(n, to)
  {
    DecimalLookalikes();
    DecodeEncode(n, Decimal);
  }

  /** A numeral without a leading zero symbol, or the lone zero symbol. */
  predicate Canonical(s: string, a: string)
    requires |a| >= 1
  {
    s == [a[0]] || (|s| >= 1 && s[0] != a[0])
  }

  /** A numeral whose first symbol is not the zero symbol has a value of at least 1. */
  lemma {:induction false} DecodePositive(s: string, a: string)
    requires ValidAlphabet(a) && AllIn(s, a) && |s| >= 1 && s[0] != a[0]
    ensures Decode(s, a) >= 1
  {
    var init := s[..|s| - 1];
    if |s| == 1 {
      assert init == [];
      assert Decode(s, a) == IndexOf(a, s[0]);
    } else {
      assert init[0] == s[0];
      DecodePositive(init, a);
      MulMonotone(1, Decode(init, a), |a|);
      assert Decode(s, a) >= Decode(init, a) * |a|;
    }
  }

  /** Reading a canonical numeral and writing its value back gives the numeral. */
  lemma {:induction false} EncodeDecode(s: string, a: string)
    requires ValidAlphabet(a) && AllIn(s, a) && Canonical(s, a)
    ensures Encode(Decode(s, a), a) == s
  {
    var init := s[..|s| - 1];
    var last := IndexOf(a, s[|s| - 1]);
    assert s == init + [a[last]];
    if |s| == 1 {
      assert init == [];
    } else {
      DecodePositive(init, a);
      EncodeDecode(init, a);
      DecodeSnoc(init, a[last], a);
      DivModUnique(Decode(init, a), last, |a|);
      MulMonotone(1, Decode(init, a), |a|);
    }
  }

  /** Leading zero symbols do not change the value of a numeral. */
  lemma {:induction false} DecodeLeadingZeros(zeros: string, s: string, a: string)
    requires |a| >= 1 && AllIn(s, a)
    requires forall i :: 0 <= i < |zeros| ==> zeros[i] == a[0]
    ensures AllIn(zeros + s, a) && Decode(zeros + s, a) == Decode(s, a)
  {
    if s == [] {
      assert zeros + s == zeros;
      OnlyZeros(zeros, a);
    } else {
      assert (zeros + s)[..|zeros + s| - 1] == zeros + s[..|s| - 1];
      DecodeLeadingZeros(zeros, s[..|s| - 1], a);
    }
  }

  lemma {:induction false} OnlyZeros(zeros: string, a: string)
    requires |a| >= 1
    requires forall i :: 0 <= i < |zeros| ==> zeros[i] == a[0]
    ensures AllIn(zeros, a) && Decode(zeros, a) == 0
  {
    if zeros != [] {
      OnlyZeros(zeros[..|zeros| - 1], a);
    }
  }

  /** One symbol below the base, one more than the quotient's numeral otherwise. */
  lemma EncodeLength(n: nat, a: string)
    requires |a| >= 2
    ensures |Encode(n, a)| == if n < |a| then 1 else |Encode(n / |a|, a)| + 1
  {
  }

  /** A smaller number never needs more symbols than a larger one. */
  lemma {:induction false} EncodeLengthMonotone(m: nat, n: nat, a: string)
    requires |a| >= 2 && m <= n
    ensures |Encode(m, a)| <= |Encode(n, a)|
    decreases n
  {
    EncodeLength(m, a);
    if m >= |a| {
      DivMonotone(m, n, |a|);
      DivShrinks(n, |a|);
      EncodeLengthMonotone(m / |a|, n / |a|, a);
      EncodeLength(n, a);
    }
  }

  /** The numeral of the largest value is at least as long as that of any value up to it. */
  lemma EncodeWidthCovers(largest: nat, a: string)
    requires |a| >= 2
    ensures forall n: nat :: n <= largest ==> |Encode(n, a)| <= |Encode(largest, a)|
  {
    forall n: nat | n <= largest
      ensures |Encode(n, a)| <= |Encode(largest, a)|
    {
      EncodeLengthMonotone(n, largest, a);
    }
  }

  /**
   * The accumulation loop of `convBase` (lines 95-103): for the i-th symbol,
   * add its digit value times `|a|` to the power of the number of symbols
   * after it.
   */
  method DecodeDigits(s: string, a: string) returns (n: nat)
    requires AllIn(s, a)
    ensures n == Decode(s, a)
  {
    n := 0;
    var i := 1;
    while i <= |s|
      invariant 1 <= i <= |s| + 1
      invariant n == Decode(s[..i - 1], a) * Pow(|a|, |s| - (i - 1))
    {
      var weight := Pow(|a|, |s| - i);
      var digit := IndexOf(a, s[i - 1]);
      DecodeDigitsStep(s, a, i);
      n := n + digit * weight;
      i := i + 1;
    }
    assert s[..|s|] == s;
  }

  /** One round of the accumulation loop: the i-th symbol enters at its weight. */
  lemma DecodeDigitsStep(s: string, a: string, i: nat)
    requires AllIn(s, a) && 1 <= i <= |s|
    ensures Decode(s[..i - 1], a) * Pow(|a|, |s| - (i - 1)) + IndexOf(a, s[i - 1]) * Pow(|a|, |s| - i)
         == Decode(s[..i], a) * Pow(|a|, |s| - i)
  {
    var weight := Pow(|a|, |s| - i);
    var digit := IndexOf(a, s[i - 1]);
    var done := Decode(s[..i - 1], a);
    assert Decode(s[..i], a) == done * |a| + digit by {
      assert s[..i] == s[..i - 1] + [s[i - 1]];
      DecodeSnoc(s[..i - 1], s[i - 1], a);
    }
    assert Pow(|a|, |s| - (i - 1)) == |a| * weight;
    assert done * (|a| * weight) + digit * weight == (done * |a| + digit) * weight by {
      MulAssoc(done, |a|, weight);
      MulDistrib(done * |a|, digit, weight);
    }
  }

  /**
   * The divide-and-prepend loop of `convBase` (lines 114-121): a number below
   * the base is one symbol; otherwise prepend the symbol of the remainder and
   * divide, until nothing is left.
   */
  method EncodeDigits(n: nat, a: string) returns (s: string)
    requires |a| >= 2
    ensures s == Encode(n, a)
  {
    if n < |a| {
      return [a[n]];
    }
    var rest: nat := n;
    s := [];
    ghost var target := Encode(n, a);
    assert Encode(rest, a) + s == target;
    while rest != 0
      invariant rest > 0 ==> Encode(rest, a) + s == target
      invariant rest == 0 ==> s == target
      decreases rest
    {
      DivShrinks(rest, |a|);
      EncodePrepend(rest, a, s, target);
      s := [a[rest % |a|]] + s;
      rest := rest / |a|;
    }
  }

  /** One round of the division loop: the last symbol moves from the numeral to the output. */
  lemma EncodePrepend(rest: nat, a: string, s: string, target: string)
    requires |a| >= 2 && rest > 0 && Encode(rest, a) + s == target
    ensures rest / |a| > 0 ==> Encode(rest / |a|, a) + ([a[rest % |a|]] + s) == target
    ensures rest / |a| == 0 ==> [a[rest % |a|]] + s == target
  {
    if rest >= |a| {
      var high := Encode(rest / |a|, a);
      assert Encode(rest, a) == high + [a[rest % |a|]];
      assert (high + [a[rest % |a|]]) + s == high + ([a[rest % |a|]] + s);
      assert rest / |a| > 0 by {
        DivMod(rest, |a|);
      }
    } else {
      SmallDivMod(rest, |a|);
    }
  }
}

/** Hexadecimal text as scenario.py writes it: Python's `hex(x)[2:]` for a
    non-negative x, the padding helper `int_to_str`, `'c' * n` repetition and
    `str.upper` applied to hex text. */
module HexText {

  /** A value of `random.randint(0, 15)`: one hex digit's worth. */
  type Nibble = d: nat | d < 16

  predicate IsLowerHexDigit(c: char) {
    '0' <= c <= '9' || 'a' <= c <= 'f'
  }

  predicate IsUpperHexDigit(c: char) {
    '0' <= c <= '9' || 'A' <= c <= 'F'
  }

  predicate IsLowerHex(s: string) {
    forall i :: 0 <= i < |s| ==> IsLowerHexDigit(s[i])
  }

  predicate IsUpperHex(s: string) {
    forall i :: 0 <= i < |s| ==> IsUpperHexDigit(s[i])
  }

  /** The value of a hex digit of either case (0 for any other character). */
  function DigitValue(c: char): Nibble {
    if '0' <= c <= '9' then c as int - '0' as int
    else if 'a' <= c <= 'f' then c as int - 'a' as int + 10
    else if 'A' <= c <= 'F' then c as int - 'A' as int + 10
    else 0
  }

  /** The digit Python's `hex` writes for d: 0-9, then a-f. */
  function HexDigit(d: Nibble): (c: char)
    ensures IsLowerHexDigit(c) && DigitValue(c) == d
  {
    if d < 10 then ('0' as int + d) as char else ('a' as int + d - 10) as char
  }

  /** The value of a string of hex digits, most significant digit first. */
  function HexValue(s: string): nat {
    if s == [] then 0 else 16 * HexValue(s[..|s| - 1]) + DigitValue(s[|s| - 1])
  }

  function Pow16(n: nat): (p: nat)
    ensures p >= 1
  {
    if n == 0 then 1 else 16 * Pow16(n - 1)
  }

  /** `hex(x)[2:]`: the shortest lower-case hex numeral of x ("0" for zero). */
  function Hex(x: nat): (s: string)
    ensures 1 <= |s|
    decreases x
  {
    if x < 16 then [HexDigit(x)] else Hex(x / 16) + [HexDigit(x % 16)]
  }

  /** `hex(x)[2:]` is lower-case hex that reads back as x, with no leading
      zero except for x = 0 itself. */
  lemma {:induction false} HexSpec(x: nat)
    ensures IsLowerHex(Hex(x)) && HexValue(Hex(x)) == x
    ensures x != 0 ==> Hex(x)[0] != '0'
    ensures x == 0 ==> Hex(x) == "0"
    decreases x
  {
    if x >= 16 {
      HexSpec(x / 16);
      var s := Hex(x);
      assert s[..|s| - 1] == Hex(x / 16);
    }
  }

  /** Python's `c * n`: n copies of c, nothing when n is not positive. */
  function Rep(c: char, n: int): (s: string)
    ensures |s| == if n > 0 then n else 0
    ensures forall i :: 0 <= i < |s| ==> s[i] == c
    decreases n
  {
    if n <= 0 then [] else Rep(c, n - 1) + [c]
  }

  /** `int_to_str(x, n)` (scenario.py:50-56): hex(x)[2:], left-padded with
      '0' when it has fewer than n digits, and otherwise left as it is. */
  function IntToStr(x: nat, n: int): (s: string)
    ensures |s| == if |Hex(x)| < n then n else |Hex(x)|
  {
    var h := Hex(x);
    var d := n - |h|;
    if d > 0 then Rep('0', d) + h else h
  }

  /** `int_to_str(x, n)` is the numeral of x behind zero padding: lower-case
      hex that reads back as x. */
  lemma IntToStrSpec(x: nat, n: int)
    ensures IntToStr(x, n)[|IntToStr(x, n)| - |Hex(x)|..] == Hex(x)
    ensures forall i :: 0 <= i < |IntToStr(x, n)| - |Hex(x)| ==> IntToStr(x, n)[i] == '0'
    ensures IsLowerHex(IntToStr(x, n)) && HexValue(IntToStr(x, n)) == x
  {
    IntToStrDigits(x, n);
    IntToStrLower(x, n);
    IntToStrValue(x, n);
  }

  lemma IntToStrDigits(x: nat, n: int)
    ensures IntToStr(x, n)[|IntToStr(x, n)| - |Hex(x)|..] == Hex(x)
    ensures forall i :: 0 <= i < |IntToStr(x, n)| - |Hex(x)| ==> IntToStr(x, n)[i] == '0'
  {
    var h := Hex(x);
    var z := Rep('0', n - |h|);
    IntToStrPadding(x, n);
    assert (z + h)[|z|..] == h;
  }

  lemma IntToStrLower(x: nat, n: int)
    ensures IsLowerHex(IntToStr(x, n))
  {
    HexSpec(x);
    IntToStrPadding(x, n);
    ZerosLowerHex(n - |Hex(x)|, Hex(x));
  }

  lemma IntToStrValue(x: nat, n: int)
    ensures HexValue(IntToStr(x, n)) == x
  {
    HexSpec(x);
    IntToStrPadding(x, n);
    LeadingZeros(n - |Hex(x)|, Hex(x));
  }

  /** Padding with no digits to add is padding with none at all. */
  lemma IntToStrPadding(x: nat, n: int)
    ensures IntToStr(x, n) == Rep('0', n - |Hex(x)|) + Hex(x)
  {
    if n - |Hex(x)| <= 0 {
      assert Rep('0', n - |Hex(x)|) == [];
    }
  }

  lemma ZerosLowerHex(k: int, s: string)
    requires IsLowerHex(s)
    ensures IsLowerHex(Rep('0', k) + s)
  {
    var z := Rep('0', k);
    forall i | 0 <= i < |z + s| ensures IsLowerHexDigit((z + s)[i]) {
      if i < |z| {
        assert (z + s)[i] == z[i];
      } else {
        assert (z + s)[i] == s[i - |z|];
      }
    }
  }

  /** Leading zero digits do not change a hex numeral's value. */
  lemma {:induction false} LeadingZeros(k: int, s: string)
    ensures HexValue(Rep('0', k) + s) == HexValue(s)
    decreases |s|
  {
    var z := Rep('0', k);
    if s == [] {
      assert z + s == z;
      ZerosValue(k);
    } else {
      var t := z + s;
      assert t[..|t| - 1] == z + s[..|s| - 1];
      LeadingZeros(k, s[..|s| - 1]);
    }
  }

  lemma {:induction false} ZerosValue(k: int)
    ensures HexValue(Rep('0', k)) == 0
    decreases k
  {
    if k > 0 {
      assert Rep('0', k)[..k - 1] == Rep('0', k - 1);
      ZerosValue(k - 1);
    }
  }

  /** x has at most n hex digits exactly when it is below 16^n. */
  lemma {:induction false} HexLength(x: nat, n: nat)
    requires n >= 1
    ensures |Hex(x)| <= n <==> x < Pow16(n)
    decreases n
  {
    if x >= 16 {
      assert Hex(x) == Hex(x / 16) + [HexDigit(x % 16)];
      if n > 1 {
        HexLength(x / 16, n - 1);
        assert x / 16 < Pow16(n - 1) <==> x < 16 * Pow16(n - 1);
      }
    } else {
      assert Pow16(n) == 16 * Pow16(n - 1);
    }
  }

  /** `int_to_str(x, n)` is exactly n digits wide when x fits in n digits, and
      otherwise the full numeral, never truncated. */
  lemma IntToStrWidth(x: nat, n: nat)
    requires n >= 1
    ensures x < Pow16(n) ==> |IntToStr(x, n)| == n
    ensures x >= Pow16(n) ==> |IntToStr(x, n)| > n && IntToStr(x, n) == Hex(x)
  {
    HexLength(x, n);
  }

  /** Python's `str.upper` on the characters of hex text. */
  function UpperChar(c: char): char {
    if 'a' <= c <= 'z' then (c as int - 32) as char else c
  }

  function Upper(s: string): (u: string)
    ensures |u| == |s|
  {
    seq(|s|, i requires 0 <= i < |s| => UpperChar(s[i]))
  }

  /** Upper-casing hex text keeps its value and makes it upper-case hex. */
  lemma {:induction false} UpperHex(s: string)
    ensures HexValue(Upper(s)) == HexValue(s)
    ensures IsLowerHex(s) ==> IsUpperHex(Upper(s))
    decreases |s|
  {
    if s != [] {
      assert Upper(s)[..|s| - 1] == Upper(s[..|s| - 1]);
      UpperHex(s[..|s| - 1]);
    }
  }

  /** Upper-casing a character keeps its digit value. */
  lemma UpperDigit(c: char)
    ensures DigitValue(UpperChar(c)) == DigitValue(c)
  {
  }
}

// Numbers as text: what printnum (libs/printfmt.c) prints and strtol (libs/string.c) reads. Strings are
// sequences of non-zero bytes; reading at the end gives the terminating NUL.
module NumberText {
  const SPACE: nat := 32
  const TAB: nat := 9
  const PLUS: nat := 43
  const MINUS: nat := 45
  const ZERO: nat := 48
  const LOWER_X: nat := 120

  function At(s: seq<nat>, i: nat): nat {
    if i < |s| then s[i] else 0
  }

  /** "0123456789abcdef"[d] */
  function DigitChar(d: nat): nat
    requires d < 16
  {
    if d < 10 then ZERO + d else 97 + (d - 10)
  }

  function Digits(num: nat, base: nat): (s: seq<nat>)
    requires 2 <= base <= 16
    ensures |s| > 0
    decreases num
  {
    (if num >= base then Digits(num / base, base) else []) + [DigitChar(num % base)]
  }

  function Repeat(c: nat, n: int): (s: seq<nat>)
    ensures |s| == (if n > 0 then n else 0) && forall i | 0 <= i < |s| :: s[i] == c
  {
    if n <= 0 then [] else seq(n, _ => c)
  }

  /** What printnum prints: the digits, filled up on the left to the width. */
  function NumText(num: nat, base: nat, width: int, padc: nat): seq<nat>
    requires 2 <= base <= 16
  {
    Repeat(padc, width - |Digits(num, base)|) + Digits(num, base)
  }

  // ---------- reading ----------

  /** The value of a character as a digit, or 36 for a character that is none. */
  function DigitOf(c: nat): (d: nat)
    ensures d <= 36
  {
    if ZERO <= c <= 57 then c - ZERO
    else if 97 <= c <= 122 then c - 97 + 10
    else if 65 <= c <= 90 then c - 65 + 10
    else 36
  }

  predicate IsDigit(c: nat, base: nat) {
    DigitOf(c) < base
  }

  function Value(s: seq<nat>, base: nat): nat {
    if s == [] then 0 else Value(s[..|s| - 1], base) * base + DigitOf(s[|s| - 1])
  }

  predicate AllDigits(s: seq<nat>, base: nat) {
    forall i | 0 <= i < |s| :: IsDigit(s[i], base)
  }

  function SkipBlanks(s: seq<nat>, i: nat): (j: nat)
    requires i <= |s|
    ensures i <= j <= |s|
    decreases |s| - i
  {
    if At(s, i) == SPACE || At(s, i) == TAB then SkipBlanks(s, i + 1) else i
  }

  /** The end of the longest run of digits from i on. */
  function DigitEnd(s: seq<nat>, i: nat, base: nat): (j: nat)
    requires i <= |s|
    ensures i <= j <= |s| && AllDigits(s[i..j], base) && (j < |s| ==> !IsDigit(s[j], base))
    decreases |s| - i
  {
    if i < |s| && IsDigit(s[i], base) then
      var j := DigitEnd(s, i + 1, base);
      assert forall k | 0 <= k < j - i :: s[i..j][k] == if k == 0 then s[i] else s[i + 1..j][k - 1];
      j
    else i
  }

  datatype Parsed = Parsed(value: int, end: nat)

  function AfterSign(s: seq<nat>): (k: nat)
    ensures k <= |s|
  {
    var i := SkipBlanks(s, 0);
    if At(s, i) == PLUS || At(s, i) == MINUS then i + 1 else i
  }

  predicate HasHexPrefix(s: seq<nat>, base: nat) {
    var k := AfterSign(s);
    (base == 0 || base == 16) && At(s, k) == ZERO && At(s, k + 1) == LOWER_X
  }

  /** The base that the digits are read in, and where they start. */
  function DigitStart(s: seq<nat>, base: nat): (r: (nat, nat))
    ensures r.1 <= |s|
  {
    var k := AfterSign(s);
    if HasHexPrefix(s, base) then (16, k + 2)
    else if base == 0 && At(s, k) == ZERO then (8, k + 1)
    else if base == 0 then (10, k)
    else (base, k)
  }

  /** What strtol returns and where it stops, with long as unbounded integers. */
  function Parse(s: seq<nat>, base: nat): Parsed {
    var (b, k) := DigitStart(s, base);
    var e := DigitEnd(s, k, b);
    var v: int := Value(s[k..e], b);
    Parsed(if At(s, SkipBlanks(s, 0)) == MINUS then -v else v, e)
  }

  /** The last loop of strtol. */
  method ReadDigits(s: seq<nat>, start: nat, base: nat) returns (val: int, i: nat)
    requires start <= |s| && base <= 36
    ensures i == DigitEnd(s, start, base) && val == Value(s[start..i], base)
  {
    val, i := 0, start;
    while true
      invariant start <= i <= |s| && DigitEnd(s, i, base) == DigitEnd(s, start, base) && val == Value(s[start..i], base)
      decreases |s| - i
    {
      var c, dig := At(s, i), 0;
      if ZERO <= c <= 57 {
        dig := c - ZERO;
      } else if 97 <= c <= 122 {
        dig := c - 97 + 10;
      } else if 65 <= c <= 90 {
        dig := c - 65 + 10;
      } else {
        break;
      }
      if dig >= base {
        break;
      }
      assert s[start..i + 1][..i - start] == s[start..i];
      i, val := i + 1, val * base + dig;
    }
  }

  /** strtol, for a base up to 36. */
  method StrToL(s: seq<nat>, base0: nat) returns (val: int, end: nat)
    requires base0 <= 36
    ensures Parsed(val, end) == Parse(s, base0)
  {
    var base, neg, i := base0, false, 0;
    while At(s, i) == SPACE || At(s, i) == TAB
      invariant i <= |s| && SkipBlanks(s, i) == SkipBlanks(s, 0)
      decreases |s| - i
    {
      i := i + 1;
    }
    if At(s, i) == PLUS {
      i := i + 1;
    } else if At(s, i) == MINUS {
      i, neg := i + 1, true;
    }
    assert i == AfterSign(s);
    if (base == 0 || base == 16) && At(s, i) == ZERO && At(s, i + 1) == LOWER_X {
      i, base := i + 2, 16;
    } else if base == 0 && At(s, i) == ZERO {
      i, base := i + 1, 8;
    } else if base == 0 {
      base := 10;
    }
    assert (base, i) == DigitStart(s, base0);
    val, end := ReadDigits(s, i, base);
    if neg {
      val := -val;
    }
  }

  // ---------- the round trip ----------

  lemma DigitCharRead(d: nat)
    requires d < 16
    ensures DigitOf(DigitChar(d)) == d
    ensures DigitChar(d) !in {0, SPACE, TAB, PLUS, MINUS, LOWER_X}
  {
  }

  predicate NumberChar(c: nat) {
    c !in {0, SPACE, TAB, PLUS, MINUS, LOWER_X}
  }

  lemma {:induction false} DigitsRead(num: nat, base: nat)
    requires 2 <= base <= 16
    ensures Value(Digits(num, base), base) == num && AllDigits(Digits(num, base), base)
    ensures forall i | 0 <= i < |Digits(num, base)| :: NumberChar(Digits(num, base)[i])
    decreases num
  {
    hide Value, DigitChar, DigitOf;
    var q, d := num / base, num % base;
    DivMod(num, base);
    DigitCharRead(d);
    if num >= base {
      DigitsRead(q, base);
      LastDigit(Digits(q, base), d, base);
      assert Digits(num, base) == Digits(q, base) + [DigitChar(d)];
    } else {
      LastDigit([], d, base);
      NothingRead(base);
      assert Digits(num, base) == [] + [DigitChar(d)];
    }
  }

  lemma NothingRead(base: nat)
    ensures Value([], base) * base == 0
  {
  }

  lemma DivMod(num: nat, base: nat)
    requires base > 1
    ensures num == num / base * base + num % base && (num < base ==> num % base == num)
    ensures num >= base ==> num / base < num
  {
    var q, r := num / base, num % base;
    assert num == q * base + r && 0 <= r < base;
    Product(q, base - 2);
    assert q * base == 2 * q + q * (base - 2);
  }

  lemma Product(a: nat, b: nat)
    ensures a * b >= 0
  {
  }

  lemma LastDigit(s: seq<nat>, d: nat, base: nat)
    requires d < base <= 16 && AllDigits(s, base)
    ensures Value(s + [DigitChar(d)], base) == Value(s, base) * base + d && AllDigits(s + [DigitChar(d)], base)
  {
    var t := s + [DigitChar(d)];
    DigitCharRead(d);
    assert t[..|t| - 1] == s;
  }

  lemma {:induction false} LeadingZeros(n: nat, s: seq<nat>, base: nat)
    ensures Value(Repeat(ZERO, n) + s, base) == Value(s, base)
  {
    var t := Repeat(ZERO, n) + s;
    if s == [] {
      assert t == Repeat(ZERO, n);
      ZerosValue(n, base);
    } else {
      assert t[..|t| - 1] == Repeat(ZERO, n) + s[..|s| - 1];
      LeadingZeros(n, s[..|s| - 1], base);
    }
  }

  lemma {:induction false} ZerosValue(n: nat, base: nat)
    ensures Value(Repeat(ZERO, n), base) == 0
  {
    if n > 0 {
      assert Repeat(ZERO, n)[..n - 1] == Repeat(ZERO, n - 1);
      ZerosValue(n - 1, base);
    }
  }

  lemma {:induction false} BlanksSkipped(n: nat, s: seq<nat>, i: nat)
    requires i <= n && (s == [] || (s[0] != SPACE && s[0] != TAB))
    ensures SkipBlanks(Repeat(SPACE, n) + s, i) == n
    decreases n - i
  {
    var t := Repeat(SPACE, n) + s;
    if i < n {
      assert t[i] == SPACE;
      BlanksSkipped(n, s, i + 1);
    } else if s != [] {
      assert t[n] == s[0];
    }
  }

  lemma {:induction false} AllRead(s: seq<nat>, i: nat, base: nat)
    requires i <= |s| && base <= 36 && forall k | i <= k < |s| :: IsDigit(s[k], base)
    ensures DigitEnd(s, i, base) == |s|
    decreases |s| - i
  {
    if i < |s| { AllRead(s, i + 1, base); }
  }

  /** What printnum prints in base 8, 10 or 16, padded with spaces or zeros to any width, strtol reads
      back in that base, and it stops at the end. */
  lemma PrintParse(num: nat, base: nat, width: int, padc: nat)
    requires base in {8, 10, 16} && padc in {SPACE, ZERO}
    ensures Parse(NumText(num, base, width, padc), base) == Parsed(num, |NumText(num, base, width, padc)|)
    ensures |NumText(num, base, width, padc)| == if width > |Digits(num, base)| then width else |Digits(num, base)|
  {
    if padc == SPACE { SpacesRead(num, base, width); } else { ZerosRead(num, base, width); }
  }

  lemma SpacesRead(num: nat, base: nat, width: int)
    requires base in {8, 10, 16}
    ensures Parse(NumText(num, base, width, SPACE), base) == Parsed(num, |NumText(num, base, width, SPACE)|)
  {
    hide Digits, Parse;
    var d, text := Digits(num, base), NumText(num, base, width, SPACE);
    var n: nat := |text| - |d|;
    DigitsRead(num, base);
    assert NumberChar(d[0]);
    BlanksSkipped(n, d, 0);
    assert text == Repeat(SPACE, n) + d;
    assert text[n..] == d;
    forall i | n <= i < |text| ensures NumberChar(text[i]) && IsDigit(text[i], base) {
      assert text[i] == d[i - n];
    }
    ReadFrom(text, n, base, num);
  }

  lemma ZerosRead(num: nat, base: nat, width: int)
    requires base in {8, 10, 16}
    ensures Parse(NumText(num, base, width, ZERO), base) == Parsed(num, |NumText(num, base, width, ZERO)|)
  {
    hide Digits, Parse, Value;
    var d, text := Digits(num, base), NumText(num, base, width, ZERO);
    var n: nat := |text| - |d|;
    DigitsRead(num, base);
    LeadingZeros(n, d, base);
    assert text == Repeat(ZERO, n) + d;
    assert text[0..] == text && SkipBlanks(text, 0) == 0;
    forall i | 0 <= i < |text| ensures NumberChar(text[i]) && IsDigit(text[i], base) {
      if n <= i { assert text[i] == d[i - n]; }
    }
    assert NumberChar(text[0]);
    ReadFrom(text, 0, base, num);
  }

  /** From the first digit on there are only digits of the base. */
  lemma ReadFrom(text: seq<nat>, k: nat, base: nat, num: nat)
    requires base in {8, 10, 16} && k < |text| && SkipBlanks(text, 0) == k && Value(text[k..], base) == num
    requires forall i | k <= i < |text| :: NumberChar(text[i]) && IsDigit(text[i], base)
    ensures Parse(text, base) == Parsed(num, |text|)
  {
    assert NumberChar(text[k]);
    assert k + 1 < |text| ==> NumberChar(text[k + 1]);
    AllRead(text, k, base);
    assert text[k..|text|] == text[k..];
  }

  /** None of the values that strtol passes through on the way is above the number read, so that with a
      number up to LONG_MAX no step overflows. */
  lemma {:induction false} ValueGrows(s: seq<nat>, n: nat, base: nat)
    requires n <= |s| && base >= 1
    ensures Value(s[..n], base) <= Value(s, base)
  {
    if n < |s| {
      assert s[..|s| - 1][..n] == s[..n];
      ValueGrows(s[..|s| - 1], n, base);
      Multiplied(Value(s[..|s| - 1], base), base);
    } else {
      assert s[..n] == s;
    }
  }

  lemma Multiplied(v: nat, base: nat)
    requires base >= 1
    ensures v <= v * base
  {
  }
}

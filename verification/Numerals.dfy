// Which strings strtol (libs/string.c) takes for which numbers, from a grammar of numerals of their own.
module Numerals {
  import opened NumberText

  /** A digit as it may be written: letters stand for 10 and more, small or capital. */
  datatype Digit = Digit(value: nat, capital: bool)

  function CharOf(d: Digit): nat
    requires d.value < 36
  {
    if d.value < 10 then 48 + d.value else if d.capital then 65 + (d.value - 10) else 97 + (d.value - 10)
  }

  predicate DigitsOf(ds: seq<Digit>, base: nat) {
    base <= 36 && forall i | 0 <= i < |ds| :: ds[i].value < base
  }

  function Chars(ds: seq<Digit>): (s: seq<nat>)
    requires DigitsOf(ds, 36)
    ensures |s| == |ds| && forall i | 0 <= i < |s| :: s[i] == CharOf(ds[i])
  {
    seq(|ds|, i requires 0 <= i < |ds| => CharOf(ds[i]))
  }

  function NumberOf(ds: seq<Digit>, base: nat): nat {
    if ds == [] then 0 else NumberOf(ds[..|ds| - 1], base) * base + ds[|ds| - 1].value
  }

  /** The character is no digit of the base, nor an x. */
  predicate Stops(c: nat, base: nat) {
    && !(48 <= c <= 57 && c - 48 < base) && !(97 <= c <= 122 && c - 87 < base) && !(65 <= c <= 90 && c - 55 < base)
    && c != 120
  }

  /** Which prefix makes strtol read in the base when it is asked for base0: none for the base itself, "0x"
      for 16, also when asked for 0, and then "0" for 8 and none for 10. */
  predicate Announces(prefix: seq<nat>, ds: seq<Digit>, base0: nat, base: nat) {
    || (2 <= base == base0 && prefix == [] && ds != [])
    || (base0 in {0, 16} && base == 16 && prefix == [48, 120])
    || (base0 == 0 && base == 8 && prefix == [48])
    || (base0 == 0 && base == 10 && prefix == [] && ds != [] && ds[0].value != 0)
  }

  lemma CharIsDigit(d: Digit, base: nat)
    requires d.value < base <= 36
    ensures DigitOf(CharOf(d)) == d.value && IsDigit(CharOf(d), base)
    ensures CharOf(d) !in {0, 9, 32, 43, 45} && (d.value != 33 ==> CharOf(d) != 120)
    ensures CharOf(d) == 48 <==> d.value == 0
  {
  }

  lemma {:induction false} ValueOfChars(ds: seq<Digit>, base: nat)
    requires DigitsOf(ds, base)
    ensures Value(Chars(ds), base) == NumberOf(ds, base)
  {
    if ds != [] {
      var n := |ds| - 1;
      assert Chars(ds)[..n] == Chars(ds[..n]);
      ValueOfChars(ds[..n], base);
      CharIsDigit(ds[n], base);
    }
  }

  lemma {:induction false} BlanksRead(s: seq<nat>, i: nat, n: nat)
    requires i <= n <= |s| && (forall k | i <= k < n :: s[k] in {32, 9}) && At(s, n) !in {32, 9}
    ensures SkipBlanks(s, i) == n
    decreases n - i
  {
    if i < n { BlanksRead(s, i + 1, n); }
  }

  lemma {:induction false} DigitsEnd(s: seq<nat>, i: nat, n: nat, base: nat)
    requires i <= n <= |s| && base <= 36 && (forall k | i <= k < n :: IsDigit(s[k], base))
    requires n < |s| ==> !IsDigit(s[n], base)
    ensures DigitEnd(s, i, base) == n
    decreases n - i
  {
    if i < n { DigitsEnd(s, i + 1, n, base); }
  }

  /** A numeral: blanks, a sign, the prefix and digits; strtol reads its number and stops behind it. */
  lemma {:induction false} NumeralParsed(blanks: seq<nat>, sign: seq<nat>, prefix: seq<nat>, ds: seq<Digit>,
                                         rest: seq<nat>, base0: nat, base: nat)
    requires (forall k | 0 <= k < |blanks| :: blanks[k] in {32, 9}) && sign in {[], [43], [45]}
    requires DigitsOf(ds, base) && Announces(prefix, ds, base0, base)
    requires rest == [] || Stops(rest[0], base)
    ensures Parse(blanks + sign + prefix + Chars(ds) + rest, base0)
         == Parsed(if sign == [45] then 0 - NumberOf(ds, base) else NumberOf(ds, base),
                   |blanks| + |sign| + |prefix| + |ds|)
  {
    hide DigitOf;
    var s := blanks + sign + prefix + Chars(ds) + rest;
    var b, k := |blanks|, |blanks| + |sign|;
    var p := k + |prefix|;
    var e := p + |ds|;
    assert s[p..e] == Chars(ds);
    StartFound(blanks, sign, prefix, ds, rest, base0, base);
    forall i | p <= i < e ensures IsDigit(s[i], base) {
      assert s[i] == s[p..e][i - p];
      CharIsDigit(ds[i - p], base);
    }
    if rest != [] {
      assert s[e] == rest[0];
      StopIsNoDigit(rest[0], base);
    }
    DigitsEnd(s, p, e, base);
    ValueOfChars(ds, base);
  }

  lemma StopIsNoDigit(c: nat, base: nat)
    requires Stops(c, base) && base <= 36
    ensures !IsDigit(c, base)
  {
  }

  /** What the string looks like where the sign ends. */
  lemma {:induction false} AfterSignOf(blanks: seq<nat>, sign: seq<nat>, prefix: seq<nat>, ds: seq<Digit>,
                                       rest: seq<nat>, base0: nat, base: nat)
    requires DigitsOf(ds, base) && Announces(prefix, ds, base0, base)
    requires rest == [] || Stops(rest[0], base)
    ensures var s, k := blanks + sign + prefix + Chars(ds) + rest, |blanks| + |sign|;
            && At(s, k) !in {9, 32, 43, 45}
            && (prefix != [] ==> At(s, k) == 48)
            && (base0 in {0, 16} ==> (prefix == [48, 120] <==> At(s, k) == 48 && At(s, k + 1) == 120))
            && (prefix == [] && base0 == 0 ==> At(s, k) != 48)
  {
    hide DigitOf;
    var s := blanks + sign + prefix + Chars(ds) + rest;
    var p := |blanks| + |sign| + |prefix|;
    if ds != [] {
      CharIsDigit(ds[0], base);
      assert s[p] == CharOf(ds[0]);
    }
    if |ds| > 1 {
      CharIsDigit(ds[1], base);
      assert s[p + 1] == CharOf(ds[1]);
    }
    if rest != [] { assert s[p + |ds|] == rest[0]; }
    if prefix != [] { assert s[|blanks| + |sign|] == prefix[0]; }
    if prefix == [48, 120] { assert s[|blanks| + |sign| + 1] == prefix[1]; }
  }

  /** Sign, prefix and base are found. */
  lemma {:induction false} StartFound(blanks: seq<nat>, sign: seq<nat>, prefix: seq<nat>, ds: seq<Digit>,
                                      rest: seq<nat>, base0: nat, base: nat)
    requires (forall k | 0 <= k < |blanks| :: blanks[k] in {32, 9}) && sign in {[], [43], [45]}
    requires DigitsOf(ds, base) && Announces(prefix, ds, base0, base)
    requires rest == [] || Stops(rest[0], base)
    ensures var s := blanks + sign + prefix + Chars(ds) + rest;
            && SkipBlanks(s, 0) == |blanks| && (At(s, |blanks|) == 45 <==> sign == [45])
            && DigitStart(s, base0) == (base, |blanks| + |sign| + |prefix|)
  {
    var s := blanks + sign + prefix + Chars(ds) + rest;
    var b := |blanks|;
    AfterSignOf(blanks, sign, prefix, ds, rest, base0, base);
    hide Chars, DigitsOf, Stops;
    if sign != [] { assert s[b] == sign[0]; }
    forall k | 0 <= k < b ensures s[k] in {32, 9} { assert s[k] == blanks[k]; }
    BlanksRead(s, 0, b);
    assert AfterSign(s) == b + |sign|;
  }
}

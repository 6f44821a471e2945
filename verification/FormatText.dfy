// What a format string means: the text that vprintfmt (libs/printfmt.c) prints for it.
module FormatText {
  import opened Options
  import opened NumberText

  const PERCENT: nat := 37

  /** The variable arguments as 64-bit words, the strings that words point at when taken as pointers,
      and the table of error messages. */
  datatype Env = Env(args: nat -> nat, strings: nat -> seq<nat>, errors: nat -> Option<seq<nat>>)

  const WORD: nat := 0x1_0000_0000_0000_0000
  const HALF: nat := 0x1_0000_0000

  /** getint and getuint: an int or unsigned int takes the low half of the word. */
  function SignedArg(word: nat, lflag: nat): int {
    var m := if lflag == 0 then HALF else WORD;
    var v := word % m;
    if v < m / 2 then v else v - m
  }

  function UnsignedArg(word: nat, lflag: nat): nat {
    word % if lflag == 0 then HALF else WORD
  }

  // ---------- escape sequences ----------

  datatype Flags = Flags(padc: nat, width: int, precision: int, lflag: nat, alt: bool)

  const NO_FLAGS: Flags := Flags(SPACE, -1, -1, 0, false)

  /** process_precision: the first number is the width, later ones the precision. */
  function WithNumber(flags: Flags, n: int): Flags {
    if flags.width < 0 then flags.(width := n, precision := -1) else flags.(precision := n)
  }

  predicate IsDecimal(c: nat) { 48 <= c <= 57 }

  function DecimalEnd(fmt: seq<nat>, i: nat): (j: nat)
    requires i <= |fmt|
    ensures i <= j <= |fmt| && (forall k | i <= k < j :: IsDecimal(fmt[k])) && !IsDecimal(At(fmt, j))
    decreases |fmt| - i
  {
    if IsDecimal(At(fmt, i)) then DecimalEnd(fmt, i + 1) else i
  }

  predicate IsFlag(c: nat) {
    c in {45, 48, 46, 35, 108, 42} || IsDecimal(c)
  }

  /** An escape sequence: the flags read, the conversion character, the place after it, the next argument. */
  datatype Escape = Escape(flags: Flags, ch: nat, next: nat, arg: nat)

  function ScanEscape(env: Env, fmt: seq<nat>, i: nat, flags: Flags, arg: nat): (e: Escape)
    requires i <= |fmt|
    ensures i < e.next <= |fmt| + 1 && e.ch == At(fmt, e.next - 1) && !IsFlag(e.ch)
    ensures forall k | i <= k < e.next - 1 :: IsFlag(fmt[k])
    decreases |fmt| - i
  {
    var ch := At(fmt, i);
    if ch == 45 || ch == 48 then ScanEscape(env, fmt, i + 1, flags.(padc := ch), arg)
    else if IsDecimal(ch) then
      var j := DecimalEnd(fmt, i);
      ScanEscape(env, fmt, j, WithNumber(flags, Value(fmt[i..j], 10)), arg)
    else if ch == 42 then ScanEscape(env, fmt, i + 1, WithNumber(flags, SignedArg(env.args(arg), 0)), arg + 1)
    else if ch == 46 then ScanEscape(env, fmt, i + 1, if flags.width < 0 then flags.(width := 0) else flags, arg)
    else if ch == 35 then ScanEscape(env, fmt, i + 1, flags.(alt := true), arg)
    else if ch == 108 then ScanEscape(env, fmt, i + 1, flags.(lflag := flags.lflag + 1), arg)
    else Escape(flags, ch, i + 1, arg)
  }

  // ---------- conversions ----------

  const CH_C: nat := 99
  const CH_D: nat := 100
  const CH_E: nat := 101
  const CH_O: nat := 111
  const CH_P: nat := 112
  const CH_S: nat := 115
  const CH_U: nat := 117
  const CH_X: nat := 120

  predicate IsConversion(c: nat) {
    c in {CH_C, CH_D, CH_E, CH_O, CH_P, CH_S, CH_U, CH_X, PERCENT}
  }

  function Shown(c: nat, alt: bool): nat {
    if alt && (c < 32 || c > 126) then 63 else c
  }

  function Prefix(s: seq<nat>, precision: int): (r: seq<nat>)
    ensures |r| <= |s|
  {
    if precision < 0 || precision >= |s| then s else s[..precision]
  }

  /** %s: at most precision characters of the string, filled up to the width on the left, or with '-' on
      the right; with '#' what is not printable is shown as a question mark. */
  function StringText(s: seq<nat>, flags: Flags): seq<nat> {
    var p := Prefix(s, flags.precision);
    var text := seq(|p|, i requires 0 <= i < |p| => Shown(p[i], flags.alt));
    if flags.padc == MINUS then text + Repeat(SPACE, flags.width - |p|)
      else Repeat(flags.padc, flags.width - |p|) + text
  }

  /** %d: a minus sign comes before the padding, which does not count it. */
  function SignedText(v: int, flags: Flags): seq<nat> {
    if v < 0 then [MINUS] + NumText(-v, 10, flags.width, flags.padc) else NumText(v, 10, flags.width, flags.padc)
  }

  /** %p: the prefix comes before the padding, which does not count it. */
  function PointerText(p: nat, flags: Flags): seq<nat> {
    [ZERO, LOWER_X] + NumText(p, 16, flags.width, flags.padc)
  }

  const NULL_TEXT: seq<nat> := [40, 110, 117, 108, 108, 41]
  const ERROR_TEXT: seq<nat> := [101, 114, 114, 111, 114, 32]

  function ErrorText(env: Env, err: nat): seq<nat> {
    match env.errors(err)
    case Some(s) => s
    case None => ERROR_TEXT + NumText(err, 10, -1, SPACE)
  }

  function Abs(v: int): nat { if v < 0 then -v else v }

  function ArgsUsed(ch: nat): nat {
    if ch == PERCENT then 0 else 1
  }

  /** The text of a conversion, with its argument if it takes one. */
  function Conversion(env: Env, ch: nat, flags: Flags, word: nat): seq<nat>
    requires IsConversion(ch)
  {
    if ch == CH_C then [word % 256]
    else if ch == CH_D then SignedText(SignedArg(word, flags.lflag), flags)
    else if ch == CH_E then ErrorText(env, Abs(SignedArg(word, 0)))
    else if ch == CH_O then NumText(UnsignedArg(word, flags.lflag), 8, flags.width, flags.padc)
    else if ch == CH_P then PointerText(word % WORD, flags)
    else if ch == CH_S then StringText(if word % WORD == 0 then NULL_TEXT else env.strings(word % WORD), flags)
    else if ch == CH_U then NumText(UnsignedArg(word, flags.lflag), 10, flags.width, flags.padc)
    else if ch == CH_X then NumText(UnsignedArg(word, flags.lflag), 16, flags.width, flags.padc)
    else [PERCENT]
  }

  /** The text for the format from i on, the next argument being number arg. A sequence that is not an
      escape stands for itself: its percent sign is printed, and all that follows it. */
  function Text(env: Env, fmt: seq<nat>, i: nat, arg: nat): seq<nat>
    decreases |fmt| - i
  {
    if i >= |fmt| then []
    else if fmt[i] != PERCENT then [fmt[i]] + Text(env, fmt, i + 1, arg)
    else
      var e := ScanEscape(env, fmt, i + 1, NO_FLAGS, arg);
      if IsConversion(e.ch) then
        Conversion(env, e.ch, e.flags, env.args(e.arg)) + Text(env, fmt, e.next, e.arg + ArgsUsed(e.ch))
      else [PERCENT] + Text(env, fmt, i + 1, e.arg)
  }

  // ---------- what follows ----------

  predicate StartsConversion(env: Env, fmt: seq<nat>, k: nat, arg: nat) {
    k < |fmt| && fmt[k] == PERCENT && IsConversion(ScanEscape(env, fmt, k + 1, NO_FLAGS, arg).ch)
  }

  /** A format in which no percent sign starts a conversion is printed as it is. */
  lemma {:induction false} NothingToConvert(env: Env, fmt: seq<nat>, i: nat, arg: nat)
    requires i <= |fmt|
    requires forall k: nat, a: nat | i <= k :: !StartsConversion(env, fmt, k, a)
    ensures Text(env, fmt, i, arg) == fmt[i..]
    decreases |fmt| - i
  {
    if i < |fmt| {
      assert !StartsConversion(env, fmt, i, arg);
      assert fmt[i..] == [fmt[i]] + fmt[i + 1..];
      NothingToConvert(env, fmt, i + 1, if fmt[i] == PERCENT then ScanEscape(env, fmt, i + 1, NO_FLAGS, arg).arg
                       else arg);
    }
  }

  /** A signed number printed with %d: strtol reads it back unless it is negative and spaces stand
      between the sign and the digits. */
  lemma SignedReadsBack(v: int, flags: Flags)
    requires flags.padc in {SPACE, ZERO}
    ensures var text := SignedText(v, flags);
            Parse(text, 10) == Parsed(v, |text|) <==> v >= 0 || flags.padc == ZERO || flags.width <= |Digits(-v, 10)|
  {
    if v >= 0 {
      PrintParse(v, 10, flags.width, flags.padc);
    } else if flags.padc == ZERO || flags.width <= |Digits(-v, 10)| {
      NegativeReads(-v, flags);
    } else {
      NegativeLost(-v, flags.width);
    }
  }

  lemma NegativeReads(n: int, flags: Flags)
    requires n > 0 && (flags.padc == ZERO || (flags.padc == SPACE && flags.width <= |Digits(n, 10)|))
    ensures var text := SignedText(-n, flags); Parse(text, 10) == Parsed(-n, |text|)
  {
    hide Digits;
    var d, num := Digits(n, 10), NumText(n, 10, flags.width, flags.padc);
    var zeros: nat := |num| - |d|;
    var text := [MINUS] + num;
    DigitsRead(n, 10);
    assert num == Repeat(ZERO, zeros) + d;
    LeadingZeros(zeros, d, 10);
    assert SkipBlanks(text, 0) == 0 && AfterSign(text) == 1;
    assert text[1..] == num;
    forall k | 1 <= k < |text| ensures IsDigit(text[k], 10) {
      if zeros + 1 <= k { assert text[k] == d[k - 1 - zeros]; }
    }
    AllRead(text, 1, 10);
    assert text[1..|text|] == num;
  }

  lemma NegativeLost(n: nat, width: int)
    requires n > 0 && width > |Digits(n, 10)|
    ensures var text := [MINUS] + NumText(n, 10, width, SPACE); Parse(text, 10) == Parsed(0, 1)
  {
    hide Digits;
    var text := [MINUS] + NumText(n, 10, width, SPACE);
    assert text[0] == MINUS && text[1] == SPACE;
    assert SkipBlanks(text, 0) == 0 && AfterSign(text) == 1;
    assert DigitEnd(text, 1, 10) == 1;
    assert text[1..1] == [];
  }

  /** A pointer printed with %p: strtol in base 16, or in base 0, which finds the base by itself, reads it
      back unless spaces stand between the prefix and the digits. */
  lemma PointerReadsBack(p: nat, flags: Flags, base: nat)
    requires (base == 0 || base == 16) && flags.padc in {SPACE, ZERO}
    ensures var text := PointerText(p, flags);
            Parse(text, base) == Parsed(p, |text|) <==> flags.padc == ZERO || flags.width <= |Digits(p, 16)|
  {
    if flags.padc == ZERO || flags.width <= |Digits(p, 16)| {
      PointerReads(p, flags, base);
    } else {
      PointerLost(p, flags.width, base);
    }
  }

  lemma PointerReads(p: nat, flags: Flags, base: nat)
    requires base == 0 || base == 16
    requires flags.padc == ZERO || (flags.padc == SPACE && flags.width <= |Digits(p, 16)|)
    ensures var text := PointerText(p, flags); Parse(text, base) == Parsed(p, |text|)
  {
    hide Digits;
    var d, num := Digits(p, 16), NumText(p, 16, flags.width, flags.padc);
    var zeros: nat := |num| - |d|;
    var text := PointerText(p, flags);
    DigitsRead(p, 16);
    assert num == Repeat(ZERO, zeros) + d;
    LeadingZeros(zeros, d, 16);
    AfterPrefix(text, base);
    assert text[2..] == num;
    forall k | 2 <= k < |text| ensures IsDigit(text[k], 16) {
      if zeros + 2 <= k { assert text[k] == d[k - 2 - zeros]; }
    }
    AllRead(text, 2, 16);
    assert text[2..|text|] == num;
  }

  lemma AfterPrefix(text: seq<nat>, base: nat)
    requires |text| >= 2 && text[0] == ZERO && text[1] == LOWER_X && (base == 0 || base == 16)
    ensures DigitStart(text, base) == (16, 2) && SkipBlanks(text, 0) == 0
  {
    assert SkipBlanks(text, 0) == 0 && AfterSign(text) == 0;
  }

  lemma PointerLost(p: nat, width: int, base: nat)
    requires (base == 0 || base == 16) && width > |Digits(p, 16)|
    ensures var text := [ZERO, LOWER_X] + NumText(p, 16, width, SPACE); Parse(text, base) == Parsed(0, 2)
  {
    hide Digits;
    var text := [ZERO, LOWER_X] + NumText(p, 16, width, SPACE);
    assert text[0] == ZERO && text[1] == LOWER_X && text[2] == SPACE;
    AfterPrefix(text, base);
    assert DigitEnd(text, 2, 16) == 2;
    assert text[2..2] == [];
  }
}

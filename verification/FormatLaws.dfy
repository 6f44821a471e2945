// What whole formats print, piece by piece and character by character: the meaning of a format string
// (FormatText.dfy) against a grammar of conversions and against numerals as people write them.
module FormatLaws {
  import opened Options
  import opened NumberText
  import opened Numerals
  import opened FormatText

  // ---------- numbers as they are printed ----------

  /** The number n in the base, in small digits without a leading zero, filled up on the left to the width. */
  ghost predicate NumberShown(text: seq<nat>, n: nat, base: nat, width: int, padc: nat) {
    exists ds: seq<Digit> :: Numeral(ds, n, base) && FilledUp(text, Chars(ds), width, padc)
  }

  ghost predicate Numeral(ds: seq<Digit>, n: nat, base: nat) {
    && ds != [] && DigitsOf(ds, base) && NumberOf(ds, base) == n
    && (forall i | 0 <= i < |ds| :: !ds[i].capital) && (|ds| > 1 ==> ds[0].value != 0)
  }

  /** The text ends in what is shown and has at least the width; before that there is only padc. */
  predicate FilledUp(text: seq<nat>, shown: seq<nat>, width: int, padc: nat) {
    && |text| >= |shown| && |text| == (if width > |shown| then width else |shown|)
    && text[|text| - |shown|..] == shown
    && forall i | 0 <= i < |text| - |shown| :: text[i] == padc
  }

  lemma {:induction false} DigitsAreNumeral(n: nat, base: nat) returns (ds: seq<Digit>)
    requires 2 <= base <= 16
    ensures Numeral(ds, n, base) && Digits(n, base) == Chars(ds)
    decreases n
  {
    hide NumberOf;
    var q, d := n / base, Digit(n % base, false);
    DivMod(n, base);
    if n < base {
      ds := [d];
      OneDigit(d, base);
    } else {
      var front := DigitsAreNumeral(q, base);
      ds := front + [d];
      MoreDigits(front, d, base);
      NonZeroHead(front, q, base);
    }
    assert Digits(n, base) == Chars(ds);
  }

  lemma OneDigit(d: Digit, base: nat)
    requires d.value < base <= 36
    ensures DigitsOf([d], base) && NumberOf([d], base) == d.value && Chars([d]) == [CharOf(d)]
  {
    assert [d][..0] == [];
    assert NumberOf([], base) * base == 0;
  }

  lemma MoreDigits(ds: seq<Digit>, d: Digit, base: nat)
    requires DigitsOf(ds, base) && d.value < base
    ensures DigitsOf(ds + [d], base) && NumberOf(ds + [d], base) == NumberOf(ds, base) * base + d.value
    ensures Chars(ds + [d]) == Chars(ds) + [CharOf(d)]
  {
    assert (ds + [d])[..|ds|] == ds;
  }

  /** The numeral of a positive number does not begin with 0. */
  lemma NonZeroHead(ds: seq<Digit>, n: nat, base: nat)
    requires Numeral(ds, n, base) && n > 0
    ensures ds[0].value != 0
  {
    if |ds| == 1 {
      assert ds == [ds[0]];
      OneDigit(ds[0], base);
    }
  }

  lemma NumTextShown(n: nat, base: nat, width: int, padc: nat)
    requires 2 <= base <= 16
    ensures NumberShown(NumText(n, base, width, padc), n, base, width, padc)
  {
    var ds := DigitsAreNumeral(n, base);
    assert FilledUp(NumText(n, base, width, padc), Chars(ds), width, padc);
  }

  // ---------- conversions ----------

  datatype Pad = Blanks | Zeros | Dashes

  /** A conversion as it is written: padding, width and precision as numerals or nothing, '#', any number of
      'l's, and the character. */
  datatype Spec = Spec(pad: Pad, width: seq<Digit>, precision: seq<Digit>, alt: bool, longs: nat, ch: nat)

  predicate FieldOk(ds: seq<Digit>) {
    DigitsOf(ds, 10) && (ds != [] ==> ds[0].value != 0)
  }

  predicate SpecOk(p: Spec) {
    FieldOk(p.width) && FieldOk(p.precision) && p.ch in {37, 99, 100, 101, 111, 112, 115, 117, 120}
  }

  function PadChars(pad: Pad): seq<nat> {
    match pad case Blanks => [] case Zeros => [48] case Dashes => [45]
  }

  function PrecisionChars(ds: seq<Digit>): seq<nat>
    requires FieldOk(ds)
  {
    if ds == [] then [] else [46] + Chars(ds)
  }

  function AltChars(alt: bool): seq<nat> {
    if alt then [35] else []
  }

  function Tail(p: Spec): seq<nat> {
    AltChars(p.alt) + (Repeat(108, p.longs) + [p.ch])
  }

  /** The characters behind the percent sign. */
  function SpecChars(p: Spec): seq<nat>
    requires SpecOk(p)
  {
    PadChars(p.pad) + (Chars(p.width) + (PrecisionChars(p.precision) + Tail(p)))
  }

  function PadOf(p: Spec): nat {
    match p.pad case Blanks => 32 case Zeros => 48 case Dashes => 45
  }

  function WidthOf(p: Spec): int {
    if p.width != [] then NumberOf(p.width, 10) else if p.precision != [] then 0 else -1
  }

  function PrecisionOf(p: Spec): int {
    if p.precision != [] then NumberOf(p.precision, 10) else -1
  }

  function FlagsOf(p: Spec): Flags {
    Flags(PadOf(p), WidthOf(p), PrecisionOf(p), p.longs, p.alt)
  }

  // ---------- reading a conversion ----------

  /** The part stands at i. */
  predicate Stands(fmt: seq<nat>, i: nat, part: seq<nat>) {
    i + |part| <= |fmt| && fmt[i..i + |part|] == part
  }

  lemma SplitStands(fmt: seq<nat>, i: nat, a: seq<nat>, b: seq<nat>)
    requires Stands(fmt, i, a + b)
    ensures Stands(fmt, i, a) && Stands(fmt, i + |a|, b)
  {
    assert fmt[i..i + |a + b|][..|a|] == fmt[i..i + |a|];
    assert fmt[i..i + |a + b|][|a|..] == fmt[i + |a|..i + |a| + |b|];
  }

  lemma FirstStands(fmt: seq<nat>, i: nat, part: seq<nat>)
    requires Stands(fmt, i, part) && part != []
    ensures At(fmt, i) == part[0]
  {
    assert fmt[i..i + |part|][0] == fmt[i];
  }

  lemma {:induction false} DecimalEndsAt(fmt: seq<nat>, i: nat, j: nat)
    requires i <= j <= |fmt| && (forall k | i <= k < j :: IsDecimal(fmt[k])) && !IsDecimal(At(fmt, j))
    ensures DecimalEnd(fmt, i) == j
    decreases j - i
  {
    if i < j { DecimalEndsAt(fmt, i + 1, j); }
  }

  /** A numeral in the format is read as the width or the precision. */
  lemma NumberScanned(env: Env, fmt: seq<nat>, i: nat, ds: seq<Digit>, flags: Flags, arg: nat)
    requires FieldOk(ds) && ds != [] && Stands(fmt, i, Chars(ds)) && !IsDecimal(At(fmt, i + |ds|))
    ensures ScanEscape(env, fmt, i, flags, arg)
         == ScanEscape(env, fmt, i + |ds|, WithNumber(flags, NumberOf(ds, 10)), arg)
  {
    var j := i + |ds|;
    forall k | i <= k < j ensures IsDecimal(fmt[k]) {
      assert fmt[i..j][k - i] == fmt[k];
    }
    DecimalEndsAt(fmt, i, j);
    ValueOfChars(ds, 10);
    FirstStands(fmt, i, Chars(ds));
  }

  lemma {:induction false} LongsScanned(env: Env, fmt: seq<nat>, i: nat, n: nat, flags: Flags, arg: nat)
    requires Stands(fmt, i, Repeat(108, n))
    ensures ScanEscape(env, fmt, i, flags, arg) == ScanEscape(env, fmt, i + n, flags.(lflag := flags.lflag + n), arg)
    decreases n
  {
    hide ScanEscape, Stands, Repeat;
    if n > 0 {
      OneLong(fmt, i, n);
      LongScanned(env, fmt, i, flags, arg);
      LongsScanned(env, fmt, i + 1, n - 1, flags.(lflag := flags.lflag + 1), arg);
    }
  }

  lemma OneLong(fmt: seq<nat>, i: nat, n: nat)
    requires Stands(fmt, i, Repeat(108, n)) && n > 0
    ensures At(fmt, i) == 108 && Stands(fmt, i + 1, Repeat(108, n - 1))
  {
    assert Repeat(108, n) == [108] + Repeat(108, n - 1);
    SplitStands(fmt, i, [108], Repeat(108, n - 1));
    FirstStands(fmt, i, [108]);
  }

  lemma LongScanned(env: Env, fmt: seq<nat>, i: nat, flags: Flags, arg: nat)
    requires i <= |fmt| && At(fmt, i) == 108
    ensures i < |fmt|
    ensures ScanEscape(env, fmt, i, flags, arg) == ScanEscape(env, fmt, i + 1, flags.(lflag := flags.lflag + 1), arg)
  {
  }

  /** The flags after the padding, the width and the precision have been read. */
  function PadFlags(p: Spec): Flags {
    Flags(PadOf(p), -1, -1, 0, false)
  }

  function WideFlags(p: Spec): Flags {
    Flags(PadOf(p), if p.width != [] then NumberOf(p.width, 10) else -1, -1, 0, false)
  }

  function FullFlags(p: Spec): Flags {
    Flags(PadOf(p), WidthOf(p), PrecisionOf(p), 0, false)
  }

  lemma PadScanned(env: Env, fmt: seq<nat>, i: nat, p: Spec, arg: nat)
    requires Stands(fmt, i, PadChars(p.pad))
    ensures ScanEscape(env, fmt, i, NO_FLAGS, arg) == ScanEscape(env, fmt, i + |PadChars(p.pad)|, PadFlags(p), arg)
  {
    if p.pad != Blanks { FirstStands(fmt, i, PadChars(p.pad)); }
  }

  lemma WidthScanned(env: Env, fmt: seq<nat>, i: nat, p: Spec, arg: nat)
    requires FieldOk(p.width) && Stands(fmt, i, Chars(p.width)) && !IsDecimal(At(fmt, i + |p.width|))
    ensures ScanEscape(env, fmt, i, PadFlags(p), arg) == ScanEscape(env, fmt, i + |p.width|, WideFlags(p), arg)
  {
    hide ScanEscape;
    if p.width != [] { NumberScanned(env, fmt, i, p.width, PadFlags(p), arg); }
  }

  lemma PointScanned(env: Env, fmt: seq<nat>, i: nat, flags: Flags, arg: nat)
    requires i <= |fmt| && At(fmt, i) == 46
    ensures i < |fmt|
    ensures ScanEscape(env, fmt, i, flags, arg)
         == ScanEscape(env, fmt, i + 1, if flags.width < 0 then flags.(width := 0) else flags, arg)
  {
  }

  lemma PrecisionScanned(env: Env, fmt: seq<nat>, i: nat, p: Spec, arg: nat)
    requires FieldOk(p.precision) && Stands(fmt, i, PrecisionChars(p.precision))
    requires !IsDecimal(At(fmt, i + |PrecisionChars(p.precision)|))
    ensures ScanEscape(env, fmt, i, WideFlags(p), arg)
         == ScanEscape(env, fmt, i + |PrecisionChars(p.precision)|, FullFlags(p), arg)
  {
    hide ScanEscape, NumberOf, Stands;
    if p.precision != [] {
      SplitStands(fmt, i, [46], Chars(p.precision));
      FirstStands(fmt, i, [46]);
      PointScanned(env, fmt, i, WideFlags(p), arg);
      NumberScanned(env, fmt, i + 1, p.precision, WideFlags(p).(width := WidthOf(p)), arg);
    }
  }

  lemma AltScanned(env: Env, fmt: seq<nat>, i: nat, p: Spec, arg: nat)
    requires Stands(fmt, i, AltChars(p.alt))
    ensures ScanEscape(env, fmt, i, FullFlags(p), arg)
         == ScanEscape(env, fmt, i + |AltChars(p.alt)|, FullFlags(p).(alt := p.alt), arg)
  {
    if p.alt { FirstStands(fmt, i, AltChars(p.alt)); }
  }

  lemma CharScanned(env: Env, fmt: seq<nat>, i: nat, flags: Flags, ch: nat, arg: nat)
    requires i <= |fmt| && At(fmt, i) == ch && ch in {37, 99, 100, 101, 111, 112, 115, 117, 120}
    ensures ScanEscape(env, fmt, i, flags, arg) == Escape(flags, ch, i + 1, arg)
  {
  }

  lemma TailStands(fmt: seq<nat>, i: nat, p: Spec)
    requires SpecOk(p) && Stands(fmt, i, Tail(p))
    ensures var k := i + |AltChars(p.alt)|;
            && Stands(fmt, i, AltChars(p.alt)) && Stands(fmt, k, Repeat(108, p.longs))
            && k + p.longs < |fmt| && At(fmt, k + p.longs) == p.ch
    ensures At(fmt, i) in {35, 108, p.ch}
  {
    hide Stands;
    var k := i + |AltChars(p.alt)|;
    SplitStands(fmt, i, AltChars(p.alt), Repeat(108, p.longs) + [p.ch]);
    if p.alt { FirstStands(fmt, i, AltChars(p.alt)); }
    SplitStands(fmt, k, Repeat(108, p.longs), [p.ch]);
    if p.longs > 0 { FirstStands(fmt, k, Repeat(108, p.longs)); }
    FirstStands(fmt, k + p.longs, [p.ch]);
  }

  lemma TailScanned(env: Env, fmt: seq<nat>, i: nat, p: Spec, arg: nat)
    requires SpecOk(p) && Stands(fmt, i, Tail(p))
    ensures ScanEscape(env, fmt, i, FullFlags(p), arg) == Escape(FlagsOf(p), p.ch, i + |Tail(p)|, arg)
  {
    hide ScanEscape, Stands, Repeat;
    var k := i + |AltChars(p.alt)|;
    TailStands(fmt, i, p);
    AltScanned(env, fmt, i, p, arg);
    LongsScanned(env, fmt, k, p.longs, FullFlags(p).(alt := p.alt), arg);
    CharScanned(env, fmt, k + p.longs, FlagsOf(p), p.ch, arg);
  }

  lemma PartsStand(fmt: seq<nat>, i: nat, p: Spec)
    requires SpecOk(p) && Stands(fmt, i, SpecChars(p))
    ensures var i1 := i + |PadChars(p.pad)|; var i2 := i1 + |p.width|; var i3 := i2 + |PrecisionChars(p.precision)|;
            && Stands(fmt, i, PadChars(p.pad)) && Stands(fmt, i1, Chars(p.width))
            && Stands(fmt, i2, PrecisionChars(p.precision)) && Stands(fmt, i3, Tail(p))
            && (p.precision != [] ==> At(fmt, i2) == 46)
            && |SpecChars(p)| == i3 - i + |Tail(p)|
  {
    hide Stands, Tail;
    var i1 := i + |PadChars(p.pad)|;
    var i2 := i1 + |p.width|;
    SplitStands(fmt, i, PadChars(p.pad), Chars(p.width) + (PrecisionChars(p.precision) + Tail(p)));
    SplitStands(fmt, i1, Chars(p.width), PrecisionChars(p.precision) + Tail(p));
    SplitStands(fmt, i2, PrecisionChars(p.precision), Tail(p));
    if p.precision != [] { FirstStands(fmt, i2, PrecisionChars(p.precision)); }
  }

  /** A written conversion is read as it is meant. */
  lemma SpecScanned(env: Env, fmt: seq<nat>, i: nat, p: Spec, arg: nat)
    requires SpecOk(p) && Stands(fmt, i, SpecChars(p))
    ensures ScanEscape(env, fmt, i, NO_FLAGS, arg) == Escape(FlagsOf(p), p.ch, i + |SpecChars(p)|, arg)
  {
    hide ScanEscape, Stands, NumberOf, Repeat, SpecChars, PadFlags, WideFlags, FullFlags, FlagsOf, Tail;
    PartsStand(fmt, i, p);
    var i1 := i + |PadChars(p.pad)|;
    var i2 := i1 + |p.width|;
    var i3 := i2 + |PrecisionChars(p.precision)|;
    TailStands(fmt, i3, p);
    PadScanned(env, fmt, i, p, arg);
    WidthScanned(env, fmt, i1, p, arg);
    PrecisionScanned(env, fmt, i2, p, arg);
    TailScanned(env, fmt, i3, p, arg);
  }

  // ---------- what a conversion shows ----------

  /** The low 32 or 64 bits of an argument. */
  function UnsignedWord(word: nat, longs: nat): nat {
    word % if longs == 0 then 0x1_0000_0000 else 0x1_0000_0000_0000_0000
  }

  /** The same bits as a signed number. */
  function SignedWord(word: nat, longs: nat): int {
    var u := UnsignedWord(word, longs);
    if longs == 0 then if u < 0x8000_0000 then u else u - 0x1_0000_0000
    else if u < 0x8000_0000_0000_0000 then u else u - 0x1_0000_0000_0000_0000
  }

  /** A minus sign, if need be, and the number filled up behind it. */
  ghost predicate SignedShown(text: seq<nat>, v: int, width: int, padc: nat) {
    if v < 0 then text != [] && text[0] == 45 && NumberShown(text[1..], 0 - v, 10, width, padc)
    else NumberShown(text, v, 10, width, padc)
  }

  /** The first n characters of s, with '#' those that cannot be printed as question marks, filled up to the
      width: on the right with blanks after '-', else on the left. */
  predicate StringShown(text: seq<nat>, s: seq<nat>, width: int, precision: int, padc: nat, alt: bool) {
    var n := if 0 <= precision < |s| then precision else |s|;
    && |text| == (if width > n then width else n)
    && var start := if padc == 45 then 0 else |text| - n;
       && (forall i | 0 <= i < n :: text[start + i] == if alt && (s[i] < 32 || s[i] > 126) then 63 else s[i])
       && (forall i | 0 <= i < |text| && !(start <= i < start + n) :: text[i] == if padc == 45 then 32 else padc)
  }

  /** The message for an error number, or the word error and the number. */
  ghost predicate ErrorShown(env: Env, text: seq<nat>, err: nat) {
    match env.errors(err)
    case Some(s) => text == s
    case None => |text| >= 6 && text[..6] == [101, 114, 114, 111, 114, 32] && NumberShown(text[6..], err, 10, -1, 32)
  }

  /** What the text of a conversion is for its argument, character by character. */
  ghost predicate Shows(env: Env, p: Spec, word: nat, text: seq<nat>) {
    match p.ch
    case 100 => SignedShown(text, SignedWord(word, p.longs), WidthOf(p), PadOf(p))
    case 117 => NumberShown(text, UnsignedWord(word, p.longs), 10, WidthOf(p), PadOf(p))
    case 111 => NumberShown(text, UnsignedWord(word, p.longs), 8, WidthOf(p), PadOf(p))
    case 120 => NumberShown(text, UnsignedWord(word, p.longs), 16, WidthOf(p), PadOf(p))
    case 112 => |text| >= 2 && text[..2] == [48, 120] && NumberShown(text[2..], UnsignedWord(word, 1), 16, WidthOf(p),
                                                                     PadOf(p))
    case 99 => text == [word % 256]
    case 115 =>
      var s := if UnsignedWord(word, 1) == 0 then [40, 110, 117, 108, 108, 41] else env.strings(UnsignedWord(word, 1));
      StringShown(text, s, WidthOf(p), PrecisionOf(p), PadOf(p), p.alt)
    case 101 => ErrorShown(env, text, if SignedWord(word, 0) < 0 then 0 - SignedWord(word, 0) else SignedWord(word, 0))
    case _ => text == [37]
  }

  lemma StringTextShown(s: seq<nat>, flags: Flags)
    ensures StringShown(StringText(s, flags), s, flags.width, flags.precision, flags.padc, flags.alt)
  {
  }

  lemma ArgumentWords(word: nat, longs: nat)
    ensures SignedArg(word, longs) == SignedWord(word, longs) && UnsignedArg(word, longs) == UnsignedWord(word, longs)
    ensures word % WORD == UnsignedWord(word, 1)
  {
  }

  lemma ErrorTextShown(env: Env, err: nat)
    ensures ErrorShown(env, ErrorText(env, err), err)
  {
    if env.errors(err).None? {
      NumTextShown(err, 10, -1, SPACE);
      assert ErrorText(env, err)[6..] == NumText(err, 10, -1, SPACE);
    }
  }

  lemma ConversionShown(env: Env, p: Spec, word: nat)
    requires SpecOk(p)
    ensures Shows(env, p, word, Conversion(env, p.ch, FlagsOf(p), word))
  {
    hide NumberShown, NumText, StringText, StringShown, ErrorShown, ErrorText, UnsignedWord, SignedWord, SignedArg;
    ArgumentWords(word, p.longs);
    ArgumentWords(word, 0);
    var n, w, c := UnsignedWord(word, p.longs), WidthOf(p), PadOf(p);
    match p.ch
    case 100 =>
      var v := SignedWord(word, p.longs);
      NumTextShown(if v < 0 then 0 - v else v, 10, w, c);
      if v < 0 { assert ([MINUS] + NumText(0 - v, 10, w, c))[1..] == NumText(0 - v, 10, w, c); }
    case 117 => NumTextShown(n, 10, w, c);
    case 111 => NumTextShown(n, 8, w, c);
    case 120 => NumTextShown(n, 16, w, c);
    case 112 =>
      NumTextShown(UnsignedWord(word, 1), 16, w, c);
      assert PointerText(UnsignedWord(word, 1), FlagsOf(p))[2..] == NumText(UnsignedWord(word, 1), 16, w, c);
    case 115 =>
      StringTextShown(if UnsignedWord(word, 1) == 0 then NULL_TEXT else env.strings(UnsignedWord(word, 1)), FlagsOf(p));
    case 101 => ErrorTextShown(env, Abs(SignedWord(word, 0)));
    case _ =>
  }

  // ---------- whole formats ----------

  /** A format as it is written: characters that stand for themselves, and conversions. */
  datatype Piece = Plain(c: nat) | Conv(p: Spec)

  predicate PieceOk(piece: Piece) {
    match piece case Plain(c) => c != 37 case Conv(p) => SpecOk(p)
  }

  predicate FormatOk(ps: seq<Piece>) {
    forall i | 0 <= i < |ps| :: PieceOk(ps[i])
  }

  function PieceChars(piece: Piece): seq<nat>
    requires PieceOk(piece)
  {
    match piece case Plain(c) => [c] case Conv(p) => [37] + SpecChars(p)
  }

  function FormatChars(ps: seq<Piece>): seq<nat>
    requires FormatOk(ps)
  {
    if ps == [] then [] else PieceChars(ps[0]) + FormatChars(ps[1..])
  }

  /** Only "%%" and plain characters take no argument. */
  function ArgumentsOf(piece: Piece): nat {
    match piece case Plain(_) => 0 case Conv(p) => if p.ch == 37 then 0 else 1
  }

  ghost predicate PieceShown(env: Env, piece: Piece, arg: nat, text: seq<nat>) {
    match piece case Plain(c) => text == [c] case Conv(p) => Shows(env, p, env.args(arg), text)
  }

  /** The text is that of the pieces, one after the other, each with the next argument. */
  ghost predicate Prints(env: Env, ps: seq<Piece>, arg: nat, text: seq<nat>) {
    if ps == [] then text == []
    else exists k | 0 <= k <= |text| ::
           PieceShown(env, ps[0], arg, text[..k]) && Prints(env, ps[1..], arg + ArgumentsOf(ps[0]), text[k..])
  }

  /** What vprintfmt prints for a format that is written of pieces is the text of those pieces. */
  lemma {:induction false} FormatPrints(env: Env, fmt: seq<nat>, i: nat, ps: seq<Piece>, arg: nat)
    requires FormatOk(ps) && i <= |fmt| && fmt[i..] == FormatChars(ps)
    ensures Prints(env, ps, arg, Text(env, fmt, i, arg))
    decreases |ps|
  {
    hide PieceShown, PieceChars, Text, Prints;
    if ps != [] {
      FirstPiece(fmt, i, ps);
      var j, next := i + |PieceChars(ps[0])|, arg + ArgumentsOf(ps[0]);
      var part := PieceText(env, fmt, i, ps[0], arg);
      FormatPrints(env, fmt, j, ps[1..], next);
      PrintsBefore(env, ps, arg, part, Text(env, fmt, j, next));
    } else {
      assert i == |fmt|;
      NothingLeft(env, fmt, arg);
      PrintsNothing(env, arg, Text(env, fmt, i, arg));
    }
  }

  lemma FirstPiece(fmt: seq<nat>, i: nat, ps: seq<Piece>)
    requires ps != [] && FormatOk(ps) && i <= |fmt| && fmt[i..] == FormatChars(ps)
    ensures var j := i + |PieceChars(ps[0])|;
            Stands(fmt, i, PieceChars(ps[0])) && FormatOk(ps[1..]) && fmt[j..] == FormatChars(ps[1..])
  {
    hide PieceChars;
    assert fmt[i..] == PieceChars(ps[0]) + FormatChars(ps[1..]);
  }

  lemma PrintsBefore(env: Env, ps: seq<Piece>, arg: nat, part: seq<nat>, rest: seq<nat>)
    requires ps != [] && PieceShown(env, ps[0], arg, part) && Prints(env, ps[1..], arg + ArgumentsOf(ps[0]), rest)
    ensures Prints(env, ps, arg, part + rest)
  {
    hide PieceShown;
    var text, k := part + rest, |part|;
    assert text[..k] == part && text[k..] == rest;
  }

  lemma NothingLeft(env: Env, fmt: seq<nat>, arg: nat)
    ensures Text(env, fmt, |fmt|, arg) == []
  {
  }

  lemma PrintsNothing(env: Env, arg: nat, text: seq<nat>)
    requires text == []
    ensures Prints(env, [], arg, text)
  {
  }

  lemma {:induction false} PieceText(env: Env, fmt: seq<nat>, i: nat, piece: Piece, arg: nat) returns (part: seq<nat>)
    requires PieceOk(piece) && Stands(fmt, i, PieceChars(piece))
    ensures PieceShown(env, piece, arg, part)
    ensures Text(env, fmt, i, arg) == part + Text(env, fmt, i + |PieceChars(piece)|, arg + ArgumentsOf(piece))
  {
    hide Shows, SpecChars, ScanEscape, FlagsOf, Conversion;
    FirstStands(fmt, i, PieceChars(piece));
    match piece
    case Plain(c) => part := [c];
    case Conv(p) =>
      SplitStands(fmt, i, [37], SpecChars(p));
      SpecScanned(env, fmt, i + 1, p, arg);
      ConversionShown(env, p, env.args(arg));
      part := Conversion(env, p.ch, FlagsOf(p), env.args(arg));
  }

  /** A width or precision of '*' is the next argument as a signed number, and what follows has the one after. */
  lemma StarTakesArgument(env: Env, fmt: seq<nat>, i: nat, flags: Flags, arg: nat)
    requires i < |fmt| && fmt[i] == 42
    ensures ScanEscape(env, fmt, i, flags, arg)
         == ScanEscape(env, fmt, i + 1,
                       if flags.width < 0 then flags.(width := SignedWord(env.args(arg), 0), precision := -1)
                       else flags.(precision := SignedWord(env.args(arg), 0)), arg + 1)
  {
    ArgumentWords(env.args(arg), 0);
  }

  // ---------- reading back ----------

  /** A number shown with blanks or zeros is read back by strtol in its base, and with dashes exactly if none is
      needed, or for 0 behind a single one. */
  lemma {:induction false} ShownReadsBack(text: seq<nat>, n: nat, base: nat, width: int, padc: nat, ds: seq<Digit>)
    requires base in {8, 10, 16} && padc in {32, 48, 45} && Numeral(ds, n, base)
             && FilledUp(text, Chars(ds), width, padc)
    ensures Parse(text, base) == Parsed(n, |text|) <==> padc != 45 || width <= |ds| || (n == 0 && width == 2)
  {
    hide Parse, NumberOf, DigitsOf, FilledUp, Chars, Numeral;
    var k := |text| - |ds|;
    FillOf(text, ds, n, base, width, padc);
    if padc == 45 {
      DashedReadsBack(text, k, n, base, ds);
    } else if padc == 32 {
      BlanksReadBack(text, k, n, base, ds);
    } else {
      ZerosReadBack(text, k, n, base, ds);
    }
  }

  lemma {:induction false} DashedReadsBack(text: seq<nat>, k: nat, n: nat, base: nat, ds: seq<Digit>)
    requires base in {8, 10, 16} && Numeral(ds, n, base) && |text| == k + |ds| && text[k..] == Chars(ds)
    requires forall i | 0 <= i < k :: text[i] == 45
    ensures Parse(text, base) == Parsed(n, |text|) <==> k == 0 || (n == 0 && k == 1)
    ensures n == 0 ==> |ds| == 1
  {
    hide Parse, NumberOf, Chars;
    if n == 0 { NoZeroInFront(ds, n, base); }
    if k == 0 {
      BlanksReadBack(text, k, n, base, ds);
    } else if k == 1 {
      assert text == [45] + Chars(ds);
      DashReadBack(text, n, base, ds);
    } else {
      DashesLost(text, base);
    }
  }

  lemma FillOf(text: seq<nat>, ds: seq<Digit>, n: nat, base: nat, width: int, padc: nat)
    requires Numeral(ds, n, base) && FilledUp(text, Chars(ds), width, padc)
    ensures DigitsOf(ds, 36) && ds != []
    ensures var k := |text| - |ds|;
            && k >= 0 && k == (if width > |ds| then width - |ds| else 0) && text[k..] == Chars(ds)
            && (forall i | 0 <= i < k :: text[i] == padc)
  {
  }

  lemma {:induction false} BlanksReadBack(text: seq<nat>, k: nat, n: nat, base: nat, ds: seq<Digit>)
    requires 2 <= base <= 36 && Numeral(ds, n, base) && k <= |text| && text[k..] == Chars(ds)
    requires forall i | 0 <= i < k :: text[i] == 32
    ensures Parse(text, base) == Parsed(n, |text|)
  {
    hide Parse;
    var fill := text[..k];
    assert text == fill + [] + [] + Chars(ds) + [];
    NumeralParsed(fill, [], [], ds, [], base, base);
  }

  lemma {:induction false} ZerosReadBack(text: seq<nat>, k: nat, n: nat, base: nat, ds: seq<Digit>)
    requires 2 <= base <= 36 && Numeral(ds, n, base) && k <= |text| && text[k..] == Chars(ds)
    requires forall i | 0 <= i < k :: text[i] == 48
    ensures Parse(text, base) == Parsed(n, |text|)
  {
    hide Parse, NumberOf;
    var zeros := seq(k, _ => Digit(0, false));
    ZerosInFront(k, ds, base);
    assert text == Chars(zeros + ds);
    assert Chars(zeros + ds) == [] + [] + [] + Chars(zeros + ds) + [];
    NumeralParsed([], [], [], zeros + ds, [], base, base);
  }

  lemma {:induction false} DashReadBack(text: seq<nat>, n: nat, base: nat, ds: seq<Digit>)
    requires 2 <= base <= 36 && Numeral(ds, n, base) && text == [45] + Chars(ds)
    ensures Parse(text, base) == Parsed(0 - n, |text|)
  {
    hide Parse, NumberOf;
    assert text == [] + [45] + [] + Chars(ds) + [];
    NumeralParsed([], [45], [], ds, [], base, base);
  }

  lemma DashesLost(text: seq<nat>, base: nat)
    requires |text| >= 2 && text[0] == 45 && text[1] == 45 && base in {8, 10, 16}
    ensures Parse(text, base) == Parsed(0, 1)
  {
    assert SkipBlanks(text, 0) == 0 && AfterSign(text) == 1;
    assert DigitStart(text, base) == (base, 1) && DigitEnd(text, 1, base) == 1;
    assert text[1..1] == [];
  }

  lemma {:induction false} ZerosInFront(k: nat, ds: seq<Digit>, base: nat)
    requires DigitsOf(ds, base) && base >= 1
    ensures var zeros := seq(k, _ => Digit(0, false));
            DigitsOf(zeros + ds, base) && NumberOf(zeros + ds, base) == NumberOf(ds, base)
    decreases |ds| + k
  {
    var zeros := seq(k, _ => Digit(0, false));
    if ds != [] {
      var m := |ds| - 1;
      ZerosInFront(k, ds[..m], base);
      assert (zeros + ds)[..k + m] == zeros + ds[..m];
    } else if k > 0 {
      ZerosInFront(k - 1, [], base);
      assert (zeros + [])[..k - 1] == seq(k - 1, _ => Digit(0, false)) + [];
    }
  }

  /** The only numeral of 0 is a single 0. */
  lemma {:induction false} NoZeroInFront(ds: seq<Digit>, n: nat, base: nat)
    requires Numeral(ds, n, base) && base >= 2 && n == 0
    ensures |ds| == 1
  {
    if |ds| > 1 { PositiveFrom(ds, base); }
  }

  lemma {:induction false} PositiveFrom(ds: seq<Digit>, base: nat)
    requires ds != [] && ds[0].value > 0 && base >= 1
    ensures NumberOf(ds, base) > 0
  {
    var m := |ds| - 1;
    if m > 0 {
      PositiveFrom(ds[..m], base);
      assert NumberOf(ds[..m], base) * base >= NumberOf(ds[..m], base);
    } else {
      assert NumberOf(ds[..0], base) == 0;
    }
  }

  /** %u, %o and %x with any padding, width and 'l's: the text is the low bits of the argument as a number in
      the base, and strtol reads it back unless dashes are put in front of it. */
  lemma {:induction false} NumberFormat(env: Env, fmt: seq<nat>, p: Spec, base: nat) returns (ds: seq<Digit>)
    requires SpecOk(p) && fmt == [37] + SpecChars(p)
    requires (p.ch == 117 && base == 10) || (p.ch == 111 && base == 8) || (p.ch == 120 && base == 16)
    ensures var n, text := UnsignedWord(env.args(0), p.longs), Text(env, fmt, 0, 0);
            && Numeral(ds, n, base) && FilledUp(text, Chars(ds), WidthOf(p), PadOf(p))
            && (Parse(text, base) == Parsed(n, |text|) <==>
                p.pad != Dashes || WidthOf(p) <= |ds| || (n == 0 && WidthOf(p) == 2))
  {
    hide SpecChars, NumberOf, FilledUp, Parse, Text, UnsignedWord;
    var n := UnsignedWord(env.args(0), p.longs);
    var text := OnePiece(env, fmt, p);
    ds :| Numeral(ds, n, base) && FilledUp(text, Chars(ds), WidthOf(p), PadOf(p));
    ShownReadsBack(text, n, base, WidthOf(p), PadOf(p), ds);
  }

  lemma {:induction false} OnePiece(env: Env, fmt: seq<nat>, p: Spec) returns (text: seq<nat>)
    requires SpecOk(p) && fmt == [37] + SpecChars(p)
    ensures text == Text(env, fmt, 0, 0) && Shows(env, p, env.args(0), text)
    ensures text == Conversion(env, p.ch, FlagsOf(p), env.args(0))
  {
    hide Shows, SpecChars, ScanEscape, FlagsOf, Conversion;
    assert Stands(fmt, 1, SpecChars(p));
    SpecScanned(env, fmt, 1, p, 0);
    ConversionShown(env, p, env.args(0));
    text := Conversion(env, p.ch, FlagsOf(p), env.args(0));
    NothingLeft(env, fmt, ArgumentsOf(Conv(p)));
    assert text + [] == text;
  }

  /** %d on a whole format: read back if and only if the number is not negative, or zeros fill it up, or nothing
      does. */
  lemma {:induction false} SignedFormat(env: Env, fmt: seq<nat>, p: Spec)
    requires SpecOk(p) && fmt == [37] + SpecChars(p) && p.ch == 100 && p.pad != Dashes
    ensures var v, text := SignedWord(env.args(0), p.longs), Text(env, fmt, 0, 0);
            Parse(text, 10) == Parsed(v, |text|) <==>
            v >= 0 || p.pad == Zeros || WidthOf(p) <= |Digits(0 - v, 10)|
  {
    hide SpecChars, Shows, Parse, Text, SignedWord;
    var text := OnePiece(env, fmt, p);
    ArgumentWords(env.args(0), p.longs);
    SignedReadsBack(SignedWord(env.args(0), p.longs), FlagsOf(p));
  }

  /** %p on a whole format: read back in base 16 and in base 0 if and only if zeros fill it up or nothing does. */
  lemma {:induction false} PointerFormat(env: Env, fmt: seq<nat>, p: Spec, base: nat)
    requires SpecOk(p) && fmt == [37] + SpecChars(p) && p.ch == 112 && p.pad != Dashes && base in {0, 16}
    ensures var a, text := env.args(0) % 0x1_0000_0000_0000_0000, Text(env, fmt, 0, 0);
            Parse(text, base) == Parsed(a, |text|) <==> p.pad == Zeros || WidthOf(p) <= |Digits(a, 16)|
  {
    hide SpecChars, Shows, Parse, Text;
    var text := OnePiece(env, fmt, p);
    PointerReadsBack(env.args(0) % 0x1_0000_0000_0000_0000, FlagsOf(p), base);
  }
}

// The formatted printer of libs/printfmt.c, printing into a buffer.
module PrintFormat {
  import opened Options
  import opened NumberText
  import opened FormatText

  const E_INVAL: int := 3

  /** struct sprintbuf: buf and ebuf as places in an array. */
  class SprintBuf {
    const data: array<nat>
    var buf: nat
    const ebuf: nat
    var cnt: nat
    /** All that has been printed, and what was in the array at first. */
    ghost var out: seq<nat>
    ghost const before: seq<nat>

    constructor (data: array<nat>, ebuf: nat)
      requires ebuf < data.Length
      ensures Valid() && this.data == data && this.ebuf == ebuf && out == [] && before == data[..]
    {
      this.data, this.ebuf, buf, cnt := data, ebuf, 0, 0;
      out, before := [], data[..];
    }

    ghost predicate Valid()
      reads this, data
    {
      && ebuf < data.Length && |before| == data.Length && cnt == |out|
      && buf == (if |out| < ebuf then |out| else ebuf)
      && data[..buf] == out[..buf] && data[buf..] == before[buf..]
    }

    /** sprintputch */
    method Putch(ch: nat)
      requires Valid()
      modifies this`buf, this`cnt, this`out, data
      ensures Valid() && out == old(out) + [ch]
    {
      cnt := cnt + 1;
      out := out + [ch];
      if buf < ebuf {
        data[buf] := ch;
        buf := buf + 1;
        assert data[..buf] == out[..buf];
      }
    }

    method PutAll(s: seq<nat>)
      requires Valid()
      modifies this`buf, this`cnt, this`out, data
      ensures Valid() && out == old(out) + s
    {
      var i := 0;
      while i < |s|
        invariant 0 <= i <= |s| && Valid() && out == old(out) + s[..i]
      {
        Putch(s[i]);
        i := i + 1;
      }
    }

    /** A loop that prints one character while a width lasts. */
    method Pad(padc: nat, width0: int) returns (width: int)
      requires Valid()
      modifies this`buf, this`cnt, this`out, data
      ensures Valid() && out == old(out) + Repeat(padc, width0) && width == if width0 > 0 then 0 else width0
    {
      width := width0;
      while width > 0
        invariant Valid() && width <= width0 && (width0 > 0 ==> width >= 0) && (width0 <= 0 ==> width == width0)
        invariant out == old(out) + Repeat(padc, width0 - width)
      {
        Putch(padc);
        width := width - 1;
      }
    }

    /** printnum */
    method PrintNum(num: nat, base: nat, width0: int, padc: nat)
      requires Valid() && 2 <= base <= 16
      modifies this`buf, this`cnt, this`out, data
      ensures Valid() && out == old(out) + NumText(num, base, width0, padc)
      decreases num
    {
      var result, mod := num / base, num % base;
      var width := width0;
      if num >= base {
        DivMod(num, base);
        PrintNum(result, base, width - 1, padc);
      } else {
        width := width - 1;
        while width > 0
          invariant Valid() && (width0 >= 1 ==> 0 <= width < width0) && (width0 < 1 ==> width == width0 - 1)
          invariant out == old(out) + Repeat(padc, width0 - 1 - width)
        {
          Putch(padc);
          width := width - 1;
        }
      }
      Putch(DigitChar(mod));
    }
  
    /** The loop of %s over the characters, precision negative for none. */
    method PrintChars(s: seq<nat>, precision0: int, width0: int, alt: bool) returns (width: int)
      requires Valid() && NoZero(s)
      modifies this`buf, this`cnt, this`out, data
      ensures Valid() && out == old(out) + ShownAll(Prefix(s, precision0), alt)
      ensures width == width0 - |Prefix(s, precision0)|
    {
      hide Shown;
      var j, precision := 0, precision0;
      width := width0;
      while true
        invariant 0 <= j <= |Prefix(s, precision0)| && Valid() && width == width0 - j
        invariant out == old(out) + ShownAll(s[..j], alt)
        invariant precision == if precision0 < 0 then precision0 else precision0 - j
        decreases |s| - j
      {
        var ch := At(s, j);
        if ch == 0 {
          break;
        }
        if precision >= 0 {
          precision := precision - 1;
          if precision < 0 {
            break;
          }
        }
        ShowOneMore(s, j, alt);
        PutShown(ch, alt);
        width := width - 1;
        j := j + 1;
      }
      assert s[..j] == Prefix(s, precision0);
    }

    method PutShown(ch: nat, alt: bool)
      requires Valid()
      modifies this`buf, this`cnt, this`out, data
      ensures Valid() && out == old(out) + [Shown(ch, alt)]
    {
      if alt && (ch < 32 || ch > 126) {
        Putch(63);
      } else {
        Putch(ch);
      }
    }

    /** The case %s. */
    method PrintString(s: seq<nat>, flags: Flags)
      requires Valid() && NoZero(s)
      modifies this`buf, this`cnt, this`out, data
      ensures Valid() && out == old(out) + StringText(s, flags)
    {
      hide StringText, ShownAll, Prefix, NoZero, Valid;
      var width := flags.width;
      ghost var left, text := [], ShownAll(Prefix(s, flags.precision), flags.alt);
      if width > 0 && flags.padc != MINUS {
        var n := StrnLen(s, flags.precision);
        left := Repeat(flags.padc, width - n);
        width := Pad(flags.padc, width - n);
      }
      width := PrintChars(s, flags.precision, width, flags.alt);
      StringPieces(s, flags, left, text, width);
      width := Pad(SPACE, width);
    }

    /** The cases of the switch that print something. */
    method PrintConversion(env: Env, ch: nat, flags: Flags, word: nat)
      requires Valid() && EnvOk(env) && IsConversion(ch)
      modifies this`buf, this`cnt, this`out, data
      ensures Valid() && out == old(out) + Conversion(env, ch, flags, word)
    {
      if ch == CH_C {
        Putch(word % 256);
      } else if ch == CH_E {
        PrintError(env, Abs(SignedArg(word, 0)));
      } else if ch == CH_S {
        var p := word % WORD;
        PrintString(if p == 0 then NULL_TEXT else env.strings(p), flags);
      } else if ch == PERCENT {
        Putch(ch);
      } else {
        PrintNumber(ch, flags, word);
      }
    }

    /** The cases %d, %u, %o, %p and %x. */
    method PrintNumber(ch: nat, flags: Flags, word: nat)
      requires Valid() && ch in {CH_D, CH_U, CH_O, CH_P, CH_X}
      modifies this`buf, this`cnt, this`out, data
      ensures Valid() && out == old(out) + Conversion(Env(_ => 0, _ => [], _ => None), ch, flags, word)
    {
      hide Valid, NumText, UnsignedArg, SignedArg;
      var num, base := UnsignedArg(word, flags.lflag), 10;
      if ch == CH_D {
        var v := SignedArg(word, flags.lflag);
        num := Abs(v);
        if v < 0 {
          Putch(MINUS);
        }
      } else if ch == CH_O {
        base := 8;
      } else if ch == CH_X {
        base := 16;
      } else if ch == CH_P {
        Putch(ZERO);
        Putch(LOWER_X);
        num, base := word % WORD, 16;
      }
      PrintNum(num, base, flags.width, flags.padc);
    }

    /** The case %e. */
    method PrintError(env: Env, err: nat)
      requires Valid() && EnvOk(env)
      modifies this`buf, this`cnt, this`out, data
      ensures Valid() && out == old(out) + ErrorText(env, err)
    {
      match env.errors(err) {
        case Some(p) =>
          assert NoZero(p);
          WholeString(p);
          PrintString(p, NO_FLAGS);
        case None =>
          PutAll(ERROR_TEXT);
          PrintNum(err, 10, -1, SPACE);
      }
    }

    /** vprintfmt */
    method VPrintFmt(env: Env, fmt: seq<nat>)
      requires Valid() && EnvOk(env) && NoZero(fmt)
      modifies this`buf, this`cnt, this`out, data
      ensures Valid() && out == old(out) + Text(env, fmt, 0, 0)
    {
      hide Text, EnvOk, NoZero, Valid;
      var i: nat, arg: nat := 0, 0;
      ghost var done: seq<nat> := [];
      while true
        invariant 0 <= i <= |fmt| && Valid() && out == old(out) + done
                  && done + Text(env, fmt, i, arg) == Text(env, fmt, 0, 0)
        decreases |fmt| - i
      {
        ghost var piece;
        i, piece := PrintPlain(env, fmt, i, arg);
        if i > |fmt| {
          return;
        }
        Regroup(done, piece, Text(env, fmt, i - 1, arg));
        done := done + piece;
        i, arg, piece := PrintEscape(env, fmt, i, arg);
        Regroup(done, piece, Text(env, fmt, i, arg));
        done := done + piece;
      }
    }

    /** One escape sequence; its percent sign stands before i0. What is not recognised is left to be
        printed literally, from behind the percent sign on. */
    method PrintEscape(env: Env, fmt: seq<nat>, i0: nat, arg0: nat) returns (i: nat, arg: nat, ghost piece: seq<nat>)
      requires Valid() && EnvOk(env) && NoZero(fmt) && 0 < i0 <= |fmt| && fmt[i0 - 1] == PERCENT
      modifies this`buf, this`cnt, this`out, data
      ensures Valid() && out == old(out) + piece && i0 <= i <= |fmt|
      ensures Text(env, fmt, i0 - 1, arg0) == piece + Text(env, fmt, i, arg)
    {
      hide ScanEscape, Conversion, EnvOk;
      var e := ReadEscape(env, fmt, i0, arg0);
      if IsConversion(e.ch) {
        piece := Conversion(env, e.ch, e.flags, env.args(e.arg));
        PrintConversion(env, e.ch, e.flags, env.args(e.arg));
        i, arg := e.next, e.arg + ArgsUsed(e.ch);
      } else {
        piece := [PERCENT];
        Putch(PERCENT);
        i := Rescan(fmt, i0, e.next - 1);
        arg := e.arg;
      }
    }

    /** The inner loop of vprintfmt, up to and over a percent sign or the terminating NUL. */
    method PrintPlain(env: Env, fmt: seq<nat>, i0: nat, ghost arg: nat) returns (i: nat, ghost piece: seq<nat>)
      requires Valid() && i0 <= |fmt| && NoZero(fmt)
      modifies this`buf, this`cnt, this`out, data
      ensures Valid() && i0 < i <= |fmt| + 1 && out == old(out) + piece
      ensures i == |fmt| + 1 ==> piece == Text(env, fmt, i0, arg)
      ensures i <= |fmt| ==> fmt[i - 1] == PERCENT && Text(env, fmt, i0, arg) == piece + Text(env, fmt, i - 1, arg)
    {
      hide Text;
      i, piece := i0 + 1, [];
      var ch := At(fmt, i0);
      while ch != PERCENT
        invariant i0 < i <= |fmt| + 1 && ch == At(fmt, i - 1) && Valid()
        invariant out == old(out) + piece && Text(env, fmt, i0, arg) == piece + Text(env, fmt, i - 1, arg)
        decreases |fmt| + 1 - i
      {
        if ch == 0 {
          NoMoreText(env, fmt, arg);
          return;
        }
        PlainStep(env, fmt, i - 1, arg, piece);
        piece := piece + [ch];
        Putch(ch);
        ch := At(fmt, i);
        i := i + 1;
      }
    }
  }

  lemma Regroup(a: seq<nat>, b: seq<nat>, c: seq<nat>)
    ensures a + (b + c) == (a + b) + c
  {
  }

  lemma NoMoreText(env: Env, fmt: seq<nat>, arg: nat)
    ensures Text(env, fmt, |fmt|, arg) == []
  {
  }

  /** The backward scan of the default case: from the last character read back to behind the percent
      sign. The characters between are flags, so it stops where the escape sequence began. */
  method Rescan(fmt: seq<nat>, start: nat, end: nat) returns (i: nat)
    requires 0 < start <= end <= |fmt| && fmt[start - 1] == PERCENT && forall k | start <= k < end :: IsFlag(fmt[k])
    ensures i == start
  {
    i := end;
    while fmt[i - 1] != PERCENT
      invariant start <= i <= end
      decreases i
    {
      i := i - 1;
    }
  }

  predicate NoZero(s: seq<nat>) {
    forall i | 0 <= i < |s| :: s[i] != 0
  }

  /** The strings that arguments and error codes stand for end at their first zero byte. */
  ghost predicate EnvOk(env: Env) {
    (forall p: nat :: NoZero(env.strings(p))) && (forall e: nat :: env.errors(e).Some? ==> NoZero(env.errors(e).value))
  }

  function ShownAll(s: seq<nat>, alt: bool): seq<nat> {
    seq(|s|, i requires 0 <= i < |s| => Shown(s[i], alt))
  }

  lemma ShowOneMore(s: seq<nat>, j: nat, alt: bool)
    requires j < |s|
    ensures ShownAll(s[..j + 1], alt) == ShownAll(s[..j], alt) + [Shown(s[j], alt)]
  {
  }

  /** The text of %s from what is printed before, in and after the loop. */
  lemma StringPieces(s: seq<nat>, flags: Flags, left: seq<nat>, text: seq<nat>, width: int)
    requires text == ShownAll(Prefix(s, flags.precision), flags.alt)
    requires var n := |Prefix(s, flags.precision)|;
             if flags.width > 0 && flags.padc != MINUS then
               left == Repeat(flags.padc, flags.width - n)
               && width == (if flags.width > n then 0 else flags.width - n) - n
             else left == [] && width == flags.width - n
    ensures left + text + Repeat(SPACE, width) == StringText(s, flags)
  {
  }

  lemma PlainStep(env: Env, fmt: seq<nat>, i: nat, arg: nat, done: seq<nat>)
    requires i < |fmt| && fmt[i] != PERCENT
    ensures done + Text(env, fmt, i, arg) == done + [fmt[i]] + Text(env, fmt, i + 1, arg)
  {
  }

  lemma WholeString(s: seq<nat>)
    ensures StringText(s, NO_FLAGS) == s
  {
  }

  /** strnlen, with a negative length for SIZE_MAX */
  method StrnLen(s: seq<nat>, len: int) returns (cnt: nat)
    requires NoZero(s)
    ensures cnt == |Prefix(s, len)|
  {
    cnt := 0;
    while (len < 0 || cnt < len) && At(s, cnt) != 0
      invariant cnt <= |Prefix(s, len)|
      decreases |s| - cnt
    {
      cnt := cnt + 1;
    }
  }

  /** The switch of vprintfmt as far as it reads flags: from reswitch to a character that is none. */
  method ReadEscape(env: Env, fmt: seq<nat>, i0: nat, arg0: nat) returns (e: Escape)
    requires i0 <= |fmt| && NoZero(fmt)
    ensures e == ScanEscape(env, fmt, i0, NO_FLAGS, arg0)
  {
    var flags, i, arg := NO_FLAGS, i0, arg0;
    while true
      invariant i0 <= i <= |fmt| && ScanEscape(env, fmt, i, flags, arg) == ScanEscape(env, fmt, i0, NO_FLAGS, arg0)
      decreases |fmt| - i
    {
      var ch := At(fmt, i);
      i := i + 1;
      if ch == 45 {
        flags := flags.(padc := 45);
      } else if ch == 48 {
        flags := flags.(padc := 48);
      } else if 49 <= ch <= 57 {
        var precision;
        precision, i := ReadNumber(fmt, i);
        flags := WithNumber(flags, precision);
      } else if ch == 42 {
        flags := WithNumber(flags, SignedArg(env.args(arg), 0));
        arg := arg + 1;
      } else if ch == 46 {
        flags := if flags.width < 0 then flags.(width := 0) else flags;
      } else if ch == 35 {
        flags := flags.(alt := true);
      } else if ch == 108 {
        flags := flags.(lflag := flags.lflag + 1);
      } else {
        return Escape(flags, ch, i, arg);
      }
    }
  }

  /** The loop of the width field; the first digit stands before i0. */
  method ReadNumber(fmt: seq<nat>, i0: nat) returns (precision: nat, i: nat)
    requires 0 < i0 <= |fmt| && IsDecimal(fmt[i0 - 1])
    ensures i == DecimalEnd(fmt, i0 - 1) && i >= i0 && precision == Value(fmt[i0 - 1..i], 10)
  {
    precision, i := 0, i0;
    var ch := fmt[i0 - 1];
    while true
      invariant i0 <= i <= |fmt| && ch == fmt[i - 1] && IsDecimal(ch)
                && DecimalEnd(fmt, i - 1) == DecimalEnd(fmt, i0 - 1)
      invariant precision == Value(fmt[i0 - 1..i - 1], 10)
      decreases |fmt| - i
    {
      assert fmt[i0 - 1..i][..i - i0] == fmt[i0 - 1..i - 1];
      precision := precision * 10 + (ch - 48);
      ch := At(fmt, i);
      if ch < 48 || ch > 57 {
        break;
      }
      i := i + 1;
    }
  }

  /** vsnprintf into an array, the string standing for str not being NULL: of all that is printed the
      first size - 1 characters are stored, then a NUL, and nothing else is written. */
  method VSNPrintf(data: array<nat>, size: nat, env: Env, fmt: seq<nat>) returns (n: int)
    requires size <= data.Length && EnvOk(env) && NoZero(fmt)
    modifies data
    ensures size == 0 ==> n == -3 && data[..] == old(data[..])
    ensures size > 0 ==>
              var text := Text(env, fmt, 0, 0);
              var stored := if |text| < size - 1 then |text| else size - 1;
              && n == |text|
              && data[..] == text[..stored] + [0] + old(data[..])[stored + 1..]
  {
    if size == 0 {
      return -E_INVAL;
    }
    hide Text, EnvOk, NoZero;
    ghost var before := data[..];
    var b := new SprintBuf(data, size - 1);
    b.VPrintFmt(env, fmt);
    Ended(before, data[..], b.out, b.buf);
    data[b.buf] := 0;
    n := b.cnt;
  }

  /** A NUL behind the first k characters of text. */
  lemma Ended(before: seq<nat>, was: seq<nat>, text: seq<nat>, k: nat)
    requires k < |was| == |before| && k <= |text| && was[..k] == text[..k] && was[k..] == before[k..]
    ensures was[k := 0] == text[..k] + [0] + before[k + 1..]
  {
    assert was[k..][1..] == was[k + 1..] && before[k..][1..] == before[k + 1..];
  }
}

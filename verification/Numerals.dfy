/** Number formatting and vsprintf (kernel/libc/stdio.c). */
module Numerals {
  import opened Common
  import opened Arithmetic

  const NUL: char := '\0'
  const SCRATCH: int := 32

  // ---------- Digits ----------

  predicate IsBase(base: int) { 2 <= base <= 36 }

  /** Division and remainder of C, which truncate towards zero. */
  function Quot(a: int, b: int): int
    requires b > 0
  {
    if a >= 0 then a / b else -(-a / b)
  }

  function Rem(a: int, b: int): int
    requires b > 0
  {
    a - b * Quot(a, b)
  }

  lemma QuotShrinks(a: int, b: int)
    requires b >= 2
    ensures a > 0 ==> 0 <= Quot(a, b) < a && 0 <= Rem(a, b) < b
    ensures a < 0 ==> a < Quot(a, b) <= 0 && -b < Rem(a, b) <= 0
    ensures a == b * Quot(a, b) + Rem(a, b)
  {
    DivShrinks(if a < 0 then -a else a, b);
  }

  lemma QuotNegated(a: int, b: int)
    requires b > 0 && a < 0
    ensures Quot(-a, b) == -Quot(a, b) && Rem(-a, b) == -Rem(a, b)
  {
    assert b * -Quot(a, b) == -(b * Quot(a, b));
  }

  lemma DivShrinks(n: int, b: int)
    requires b >= 2 && n >= 0
    ensures 0 <= n / b && (n > 0 ==> n / b < n) && n == b * (n / b) + n % b
    ensures b * -(n / b) == -(b * (n / b))
  {
    var q := n / b;
    if q >= 1 {
      AtLeastTwice(b, q);
    }
  }

  lemma AtLeastTwice(b: int, q: int)
    requires b >= 2 && q >= 1
    ensures b * q >= 2 * q
  {
  }

  function DigitChar(t: int): char
    requires -36 < t < 36
  {
    if t < 10 then ('0' as int + t) as char else ('a' as int + t - 10) as char
  }

  function DigitValue(c: char): int {
    if '0' <= c <= '9' then c as int - '0' as int
    else if 'a' <= c <= 'z' then c as int - 'a' as int + 10
    else -1
  }

  /** What the digit loop leaves, in reading order. */
  function Digits(value: int, base: int): seq<char>
    requires IsBase(base)
    decreases if value < 0 then -value else value
  {
    QuotShrinks(value, base);
    if value == 0 then [] else Digits(Quot(value, base), base) + [DigitChar(Rem(value, base))]
  }

  /** The text that itoa, utoa and ptoa give for a value. */
  function Text(value: int, base: int): seq<char>
    requires IsBase(base)
  {
    if value == 0 then "0" else Digits(value, base)
  }

  // ---------- Reading it back ----------

  predicate IsNumeral(s: seq<char>, base: int) {
    s != [] && forall i :: 0 <= i < |s| ==> 0 <= DigitValue(s[i]) < base
  }

  /** Positional value. */
  function Parse(s: seq<char>, base: int): int
    decreases |s|
  {
    if s == [] then 0 else Parse(s[..|s| - 1], base) * base + DigitValue(s[|s| - 1])
  }

  lemma DigitCharValue(t: int)
    requires -36 < t < 36
    ensures DigitValue(DigitChar(t)) == if t >= 0 then t else -1
    ensures DigitChar(t) != NUL && (DigitChar(t) == '0' <==> t == 0)
  {
  }

  lemma DigitAppended(s: seq<char>, c: char, base: int)
    ensures Parse(s + [c], base) == Parse(s, base) * base + DigitValue(c)
    ensures (s == [] || IsNumeral(s, base)) && 0 <= DigitValue(c) < base ==> IsNumeral(s + [c], base)
  {
    assert (s + [c])[..|s|] == s;
    hide DigitValue;
  }

  /** The last digit and the rest. */
  lemma DigitsStep(value: int, base: int) returns (q: int, r: int, c: char)
    requires IsBase(base) && value > 0
    ensures 0 <= q < value && 0 <= r < base && value == q * base + r
    ensures Digits(value, base) == Digits(q, base) + [c] && DigitValue(c) == r && (c == '0' <==> r == 0)
  {
    q, r := Quot(value, base), Rem(value, base);
    c := DigitChar(r);
    QuotShrinks(value, base);
    DigitCharValue(r);
    assert q * base == base * q;
  }

  lemma {:induction false} DigitsParse(value: int, base: int)
    requires IsBase(base) && value > 0
    ensures IsNumeral(Digits(value, base), base) && Parse(Digits(value, base), base) == value
    ensures Digits(value, base)[0] != '0'
    decreases value
  {
    var q, r, c := DigitsStep(value, base);
    DigitAppended(Digits(q, base), c, base);
    if q > 0 {
      DigitsParse(q, base);
    } else {
      assert Digits(q, base) == [] && Parse([], base) == 0;
    }
    hide Digits;
    hide Parse;
    hide DigitValue;
  }

  /** Formatting a value that is not negative and reading it back gives the value, and there
      is no leading zero. */
  lemma TextParses(value: int, base: int)
    requires IsBase(base) && value >= 0
    ensures IsNumeral(Text(value, base), base) && Parse(Text(value, base), base) == value
    ensures value > 0 ==> Text(value, base)[0] != '0'
  {
    if value > 0 {
      DigitsParse(value, base);
    } else {
      assert "0"[..0] == [];
    }
  }

  lemma {:induction false} NegativeStartsBelowZero(value: int, base: int)
    requires IsBase(base) && value < 0
    ensures Digits(value, base) != [] && DigitValue(Digits(value, base)[0]) == -1
    decreases -value
  {
    QuotShrinks(value, base);
    DigitCharValue(Rem(value, base));
    if Quot(value, base) < 0 {
      NegativeStartsBelowZero(Quot(value, base), base);
    }
  }

  /** The digits above 9 are lower case letters. */
  lemma DigitsAreLowerCase(value: int, base: int)
    requires IsBase(base) && value >= 0
    ensures forall c :: c in Text(value, base) ==> '0' <= c <= '9' || 'a' <= c <= 'z'
  {
    TextParses(value, base);
    hide Text;
  }

  /** The text of a negative value: each digit of its counterpart is taken from the character
      0 where it should be added. */
  lemma {:induction false} NegativeMirrors(value: int, base: int)
    requires IsBase(base) && value < 0
    ensures var s, t := Digits(value, base), Digits(-value, base);
      |s| == |t| && forall i :: 0 <= i < |s| ==> s[i] as int == '0' as int - DigitValue(t[i])
    decreases -value
  {
    QuotShrinks(value, base);
    QuotShrinks(-value, base);
    QuotNegated(value, base);
    var q, r := Quot(value, base), Rem(value, base);
    hide Quot;
    hide Rem;
    DigitCharValue(-r);
    var s, t := Digits(q, base), Digits(-q, base);
    assert Digits(value, base) == s + [DigitChar(r)] && Digits(-value, base) == t + [DigitChar(-r)];
    hide Digits;
    hide DigitValue;
    if q < 0 {
      NegativeMirrors(q, base);
    }
  }

  /** itoa writes a numeral exactly for the values that are not negative: it knows no sign. */
  lemma NumeralExactly(value: int, base: int)
    requires IsBase(base)
    ensures IsNumeral(Text(value, base), base) <==> value >= 0
  {
    if value >= 0 {
      TextParses(value, base);
    } else {
      NegativeStartsBelowZero(value, base);
    }
  }

  function Power(base: int, n: nat): int {
    if n == 0 then 1 else base * Power(base, n - 1)
  }

  /** The number of digits. */
  lemma {:induction false} DigitsLength(value: int, base: int, n: nat)
    requires IsBase(base)
    ensures |Digits(value, base)| <= n <==> -Power(base, n) < value < Power(base, n)
    decreases n
  {
    PowerPositive(base, n);
    QuotShrinks(value, base);
    hide Quot;
    hide Rem;
    if value != 0 && n > 0 {
      DigitsLength(Quot(value, base), base, n - 1);
      BelowProduct(Quot(value, base), Rem(value, base), Power(base, n - 1), base);
    }
  }

  /** q * b + r lies within m * b exactly when q lies within m. */
  lemma BelowProduct(q: int, r: int, m: int, b: int)
    requires b > 0 && -b < r < b && (q > 0 ==> r >= 0) && (q < 0 ==> r <= 0) && m > 0
    ensures -m < q < m <==> -(b * m) < b * q + r < b * m
  {
    assert b * (q - m) == b * q - b * m && b * (q + m) == b * q + b * m;
    assert (q - m) * b == b * (q - m) && (q + m) * b == b * (q + m);
    Scale(q - m, b);
    Scale(q + m, b);
  }

  lemma {:induction false} PowerPositive(base: int, n: nat)
    requires base > 0
    ensures Power(base, n) > 0
    decreases n
  {
    if n > 0 {
      PowerPositive(base, n - 1);
    }
  }

  /** Decimal and hexadecimal texts of 32-bit values, with their end, fit the scratch buffer
      of vsprintf. */
  lemma TextFits(value: int)
    requires -WORD_LIMIT < value < WORD_LIMIT
    ensures |Text(value, 10)| <= 10 < SCRATCH && |Text(value, 16)| <= 8
  {
    DigitsLength(value, 10, 10);
    DigitsLength(value, 16, 8);
    assert Power(10, 5) == 100000 && Power(10, 10) == 100000 * Power(10, 5);
    assert Power(16, 4) == 65536 && Power(16, 8) == 65536 * Power(16, 4);
  }

  lemma {:induction false} DigitsNotNul(value: int, base: int)
    requires IsBase(base)
    ensures NUL !in Digits(value, base)
    decreases if value < 0 then -value else value
  {
    QuotShrinks(value, base);
    if value != 0 {
      DigitCharValue(Rem(value, base));
      DigitsNotNul(Quot(value, base), base);
    }
  }

  // ---------- The loops ----------

  /** s stands at the start of the buffer with its end; the rest is as it was. */
  ghost predicate Holds(buffer: seq<char>, was: seq<char>, s: seq<char>) {
    |s| < |buffer| == |was| && buffer[..|s|] == s && buffer[|s|] == NUL && buffer[|s| + 1..] == was[|s| + 1..]
  }

  /**
   itoa, utoa and ptoa, which differ only in the type of the value: the digits are written
   from the last to the first and then turned around in place.
   */
  method Itoa(value: int, str: array<char>, base: int)
    requires IsBase(base) && |Text(value, base)| < str.Length
    modifies str
    ensures Holds(str[..], old(str[..]), Text(value, base))
  {
    if value == 0 {
      str[0], str[1] := '0', NUL;
      return;
    }
    var n := WriteDigits(value, str, base);
    str[n] := NUL;
    hide Digits;
    hide Reversed;
    ReversedTwice(Digits(value, base));
    ReverseInPlace(str, n);
  }

  lemma ReversedTwice(s: seq<char>)
    ensures |Reversed(s)| == |s| && Reversed(Reversed(s)) == s
  {
    ReversedAt(s);
    ReversedAt(Reversed(s));
  }

  method WriteDigits(value: int, str: array<char>, base: int) returns (n: int)
    requires IsBase(base) && |Digits(value, base)| < str.Length
    modifies str
    ensures n == |Digits(value, base)|
    ensures str[..n] == Reversed(Digits(value, base)) && str[n..] == old(str[n..])
  {
    ghost var digits := Digits(value, base);
    ReversedAt(digits);
    n := 0;
    var rest := value;
    while rest != 0
      invariant 0 <= n <= |digits| && Digits(rest, base) == digits[..|digits| - n]
      invariant forall i :: 0 <= i < n ==> str[i] == digits[|digits| - 1 - i]
      invariant forall i :: n <= i < str.Length ==> str[i] == old(str[i])
      decreases |digits| - n
    {
      QuotShrinks(rest, base);
      str[n] := DigitChar(Rem(rest, base));
      rest, n := Quot(rest, base), n + 1;
    }
  }

  method ReverseInPlace(str: array<char>, n: int)
    requires 0 < n < str.Length
    modifies str
    ensures str[..n] == Reversed(old(str[..n])) && str[n..] == old(str[n..])
  {
    ghost var was := str[..n];
    ReversedAt(was);
    hide Reversed;
    var low, high := 0, n - 1;
    while low < high
      invariant 0 <= low && high == n - 1 - low && low <= high + 1
      invariant forall i :: 0 <= i < low ==> str[i] == old(str[n - 1 - i]) && str[n - 1 - i] == old(str[i])
      invariant forall i :: low <= i <= high ==> str[i] == old(str[i])
      invariant forall i :: n <= i < str.Length ==> str[i] == old(str[i])
    {
      str[low], str[high] := str[high], str[low];
      low, high := low + 1, high - 1;
    }
    forall i | 0 <= i < n ensures str[..n][i] == Reversed(was)[i] {
      assert str[i] == old(str[n - 1 - i]) by {
        if i > high {
          assert i == n - 1 - (n - 1 - i) && n - 1 - i < low;
        }
      }
      assert was[n - 1 - i] == old(str[n - 1 - i]);
    }
  }

  // ---------- vsprintf ----------

  /** An argument of the call: an int, an unsigned or pointer-sized value, or a string. */
  datatype Arg = Int(value: int) | Unsigned(value: int) | Str(s: seq<char>)

  predicate IsInt(value: int) { -0x8000_0000 <= value < 0x8000_0000 }

  predicate TakesArgument(ch: char) { ch in {'d', 'u', 'x', 's', 'c', 'p'} }

  predicate Suits(ch: char, arg: Arg) {
    match ch
    case 'd' | 'x' | 'c' => arg.Int? && IsInt(arg.value)
    case 'u' | 'p' => arg.Unsigned? && IsWord(arg.value)
    case 's' => arg.Str? && NUL !in arg.s
    case _ => false
  }

  /** What a specifier prints of its argument. */
  function Printed(ch: char, arg: Arg): seq<char>
    requires Suits(ch, arg)
  {
    match ch
    case 'd' => Text(arg.value, 10)
    case 'u' => Text(arg.value, 10)
    case 'x' => Text(arg.value, 16)
    case 'p' => "0x" + Text(arg.value, 16)
    case 'c' => [(arg.value % 256) as char]
    case _ => arg.s
  }

  /** Every specifier has its argument, none is %f, and the format does not end in a %. */
  predicate WellFormed(format: seq<char>, args: seq<Arg>)
    decreases |format|
  {
    if format == [] then true
    else if format[0] != '%' then format[0] != NUL && WellFormed(format[1..], args)
    else
      && |format| > 1 && format[1] != NUL && format[1] != 'f'
      && if TakesArgument(format[1]) then args != [] && Suits(format[1], args[0]) && WellFormed(format[2..], args[1..])
         else WellFormed(format[2..], args)
  }

  /** The literals of the format and what its specifiers print, in order. */
  function Rendered(format: seq<char>, args: seq<Arg>): seq<char>
    requires WellFormed(format, args)
    decreases |format|
  {
    if format == [] then []
    else if format[0] != '%' then [format[0]] + Rendered(format[1..], args)
    else if TakesArgument(format[1]) then Printed(format[1], args[0]) + Rendered(format[2..], args[1..])
    else [format[1]] + Rendered(format[2..], args)
  }

  // ---------- What a format means ----------

  /** A format without a % is copied. */
  lemma {:induction false} LiteralIsCopied(text: seq<char>, args: seq<Arg>)
    requires '%' !in text && NUL !in text
    ensures WellFormed(text, args) && Rendered(text, args) == text
    decreases |text|
  {
    if text != [] {
      assert text == [text[0]] + text[1..];
      LiteralIsCopied(text[1..], args);
    }
  }

  /** How many arguments a format takes. */
  function Arguments(format: seq<char>): nat
    decreases |format|
  {
    if format == [] then 0
    else if format[0] != '%' then Arguments(format[1..])
    else if |format| == 1 then 0
    else (if TakesArgument(format[1]) then 1 else 0) + Arguments(format[2..])
  }

  /** A format that is split after whole specifiers prints what its parts print. */
  lemma {:induction false} RenderedInParts(f: seq<char>, a: seq<Arg>, g: seq<char>, b: seq<Arg>)
    requires WellFormed(f, a) && |a| == Arguments(f) && WellFormed(g, b)
    ensures WellFormed(f + g, a + b) && Rendered(f + g, a + b) == Rendered(f, a) + Rendered(g, b)
    decreases |f|
  {
    hide Printed;
    if f == [] {
      assert f + g == g && a + b == b;
    } else {
      var n, m := if f[0] != '%' then 1 else 2, if f[0] == '%' && TakesArgument(f[1]) then 1 else 0;
      assert (f + g)[n..] == f[n..] + g && (a + b)[m..] == a[m..] + b && a[0..] == a && (a + b)[0..] == a + b;
      RenderedInParts(f[n..], a[m..], g, b);
    }
  }

  lemma RenderedAlone(ch: char, arg: Arg)
    requires TakesArgument(ch) && Suits(ch, arg)
    ensures var f := ['%', ch];
      WellFormed(f, [arg]) && Arguments(f) == 1 && Rendered(f, [arg]) == Printed(ch, arg)
  {
    var f := ['%', ch];
    assert f[2..] == [] && [arg][1..] == [];
    assert Arguments(f[2..]) == 0;
    assert WellFormed(f[2..], []) && Rendered(f[2..], []) == [];
    assert Printed(ch, arg) + [] == Printed(ch, arg);
  }

  /** A literal text and one specifier. */
  lemma RenderedAfter(text: seq<char>, ch: char, arg: Arg)
    requires '%' !in text && NUL !in text && TakesArgument(ch) && Suits(ch, arg)
    ensures WellFormed(text + ['%', ch], [arg]) && Rendered(text + ['%', ch], [arg]) == text + Printed(ch, arg)
  {
    LiteralIsCopied(text, []);
    NoArguments(text);
    RenderedAlone(ch, arg);
    RenderedInParts(text, [], ['%', ch], [arg]);
    assert [] + [arg] == [arg];
  }

  lemma {:induction false} NoArguments(text: seq<char>)
    requires '%' !in text
    ensures Arguments(text) == 0
    decreases |text|
  {
    if text != [] {
      NoArguments(text[1..]);
    }
  }

  /**
   The specifiers of numbers, behind any literal text: %d and %u append a decimal numeral and %x
   a hexadecimal one that reads back as the argument, without a leading zero, for every
   argument that is not negative; %p does after 0x.
   */
  lemma NumbersReadBack(text: seq<char>, value: int)
    requires '%' !in text && NUL !in text && value >= 0
    ensures IsInt(value) ==> PrintsNumeral(text, "%d", Int(value), "", 10) && PrintsNumeral(text, "%x", Int(value), "", 16)
    ensures IsWord(value) ==> PrintsNumeral(text, "%u", Unsigned(value), "", 10) && PrintsNumeral(text, "%p", Unsigned(value), "0x", 16)
  {
    hide Text;
    hide PrintsNumeral;
    if IsInt(value) {
      ReadsBack(text, 'd', Int(value), "", 10);
      ReadsBack(text, 'x', Int(value), "", 16);
    }
    if IsWord(value) {
      ReadsBack(text, 'u', Unsigned(value), "", 10);
      ReadsBack(text, 'p', Unsigned(value), "0x", 16);
    }
  }

  /** The text, the prefix, and a numeral of the argument's value. */
  ghost predicate PrintsNumeral(text: seq<char>, specifier: seq<char>, arg: Arg, prefix: seq<char>, base: int)
    requires !arg.Str?
  {
    && WellFormed(text + specifier, [arg])
    && var out := Rendered(text + specifier, [arg]);
       var n := |text + prefix|;
       && n < |out| && out[..n] == text + prefix
       && IsNumeral(out[n..], base) && Parse(out[n..], base) == arg.value && (arg.value > 0 ==> out[n] != '0')
  }

  lemma ReadsBack(text: seq<char>, ch: char, arg: Arg, prefix: seq<char>, base: int)
    requires '%' !in text && NUL !in text && TakesArgument(ch) && Suits(ch, arg) && !arg.Str? && arg.value >= 0
    requires IsBase(base) && Printed(ch, arg) == prefix + Text(arg.value, base)
    ensures PrintsNumeral(text, ['%', ch], arg, prefix, base)
  {
    TextParses(arg.value, base);
    hide Text;
    hide Printed;
    hide Parse;
    hide IsNumeral;
    hide WellFormed;
    hide Rendered;
    RenderedAfter(text, ch, arg);
    Behind(text, prefix, Text(arg.value, base));
  }

  lemma Behind(text: seq<char>, prefix: seq<char>, digits: seq<char>)
    ensures text + (prefix + digits) == text + prefix + digits
    ensures var out := text + (prefix + digits);
      out[..|text + prefix|] == text + prefix && out[|text + prefix|..] == digits
  {
  }

  /** %s appends the string, %c the byte, and an unknown specifier itself. */
  lemma OthersAreCopied(text: seq<char>, s: seq<char>, value: int, ch: char)
    requires '%' !in text && NUL !in text && NUL !in s && IsInt(value)
    requires ch !in {'d', 'u', 'x', 's', 'c', 'p', 'f', NUL}
    ensures WellFormed(text + "%s", [Str(s)]) && Rendered(text + "%s", [Str(s)]) == text + s
    ensures WellFormed(text + "%c", [Int(value)])
    ensures var out := Rendered(text + "%c", [Int(value)]);
      |out| == |text| + 1 && out[..|text|] == text && out[|text|] as int == value % 256
    ensures WellFormed(text + ['%', ch], []) && Rendered(text + ['%', ch], []) == text + [ch]
  {
    RenderedAfter(text, 's', Str(s));
    RenderedAfter(text, 'c', Int(value));
    LiteralIsCopied(text, []);
    NoArguments(text);
    var f := ['%', ch];
    assert f[2..] == [] && WellFormed([], []) && Rendered([], []) == [];
    assert WellFormed(f, []) && Rendered(f, []) == [ch];
    var none: seq<Arg> := [];
    assert none + none == none;
    RenderedInParts(text, none, f, none);
  }

  /** What has been written at the start of the buffer. */
  ghost predicate Written(buffer: seq<char>, was: seq<char>, s: seq<char>) {
    |s| <= |buffer| == |was| && buffer[..|s|] == s && buffer[|s|..] == was[|s|..]
  }

  method PutChar(buffer: array<char>, n: int, ch: char, ghost was: seq<char>, ghost done: seq<char>) returns (n': int)
    requires Written(buffer[..], was, done) && n == |done| < buffer.Length
    modifies buffer
    ensures n' == n + 1 && Written(buffer[..], was, done + [ch])
  {
    buffer[n] := ch;
    n' := n + 1;
  }

  /** The loop that copies the scratch buffer, or an argument string, up to its end. */
  method PutString(buffer: array<char>, n: int, text: seq<char>,
                   ghost s: seq<char>, ghost was: seq<char>, ghost done: seq<char>)
    returns (n': int)
    requires Written(buffer[..], was, done) && n == |done| && n + |s| <= buffer.Length
    requires |s| < |text| && text[..|s|] == s && text[|s|] == NUL && NUL !in s
    modifies buffer
    ensures n' == n + |s| && Written(buffer[..], was, done + s)
  {
    n' := n;
    var i := 0;
    assert done + s[..0] == done;
    while text[i] != NUL
      invariant 0 <= i <= |s| && n' == n + i && Written(buffer[..], was, done + s[..i])
      decreases |s| - i
    {
      assert text[i] == s[i] && done + s[..i] + [s[i]] == done + s[..i + 1];
      n' := PutChar(buffer, n', text[i], was, done + s[..i]);
      i := i + 1;
    }
    assert s[..i] == s;
  }

  lemma TextNotNul(value: int, base: int)
    requires IsBase(base)
    ensures NUL !in Text(value, base)
  {
    DigitsNotNul(value, base);
  }

  method PutNumber(buffer: array<char>, n: int, value: int, base: int, tmp: array<char>,
                   ghost was: seq<char>, ghost done: seq<char>)
    returns (n': int)
    requires buffer != tmp && tmp.Length == SCRATCH && (base == 10 || base == 16) && -WORD_LIMIT < value < WORD_LIMIT
    requires Written(buffer[..], was, done) && n == |done| && n + |Text(value, base)| <= buffer.Length
    modifies buffer, tmp
    ensures n' == n + |Text(value, base)| && Written(buffer[..], was, done + Text(value, base))
  {
    TextFits(value);
    TextNotNul(value, base);
    hide Text;
    Itoa(value, tmp, base);
    n' := PutString(buffer, n, tmp[..], Text(value, base), was, done);
  }

  /** The cases of the switch that take an argument. */
  method PutArgument(buffer: array<char>, n: int, ch: char, arg: Arg, tmp: array<char>,
                     ghost was: seq<char>, ghost done: seq<char>)
    returns (n': int)
    requires buffer != tmp && tmp.Length == SCRATCH && Suits(ch, arg)
    requires Written(buffer[..], was, done) && n == |done| && n + |Printed(ch, arg)| <= buffer.Length
    modifies buffer, tmp
    ensures n' == n + |Printed(ch, arg)| && Written(buffer[..], was, done + Printed(ch, arg))
  {
    hide Text;
    hide Written;
    match ch {
      case 'd' => n' := PutNumber(buffer, n, arg.value, 10, tmp, was, done);
      case 'u' => n' := PutNumber(buffer, n, arg.value, 10, tmp, was, done);
      case 'x' => n' := PutNumber(buffer, n, arg.value, 16, tmp, was, done);
      case 's' => n' := PutString(buffer, n, arg.s + [NUL], arg.s, was, done);
      case 'c' => n' := PutChar(buffer, n, (arg.value % 256) as char, was, done);
      case 'p' => n' := PutPointer(buffer, n, arg.value, tmp, was, done);
    }
  }

  method PutPointer(buffer: array<char>, n: int, value: int, tmp: array<char>, ghost was: seq<char>, ghost done: seq<char>)
    returns (n': int)
    requires buffer != tmp && tmp.Length == SCRATCH && IsWord(value)
    requires Written(buffer[..], was, done) && n == |done| && n + 2 + |Text(value, 16)| <= buffer.Length
    modifies buffer, tmp
    ensures n' == n + 2 + |Text(value, 16)| && Written(buffer[..], was, done + ("0x" + Text(value, 16)))
  {
    hide Text;
    hide Written;
    n' := PutChar(buffer, n, '0', was, done);
    n' := PutChar(buffer, n', 'x', was, done + ['0']);
    assert done + ['0'] + ['x'] == done + "0x";
    n' := PutNumber(buffer, n', value, 16, tmp, was, done + "0x");
    assert done + "0x" + Text(value, 16) == done + ("0x" + Text(value, 16));
  }

  /** What the next character or specifier of a format prints behind what is done. */
  lemma RenderedNext(done: seq<char>, fmt: seq<char>, args: seq<Arg>)
    requires WellFormed(fmt, args) && fmt != []
    ensures var all := done + Rendered(fmt, args);
      if fmt[0] != '%' then
        WellFormed(fmt[1..], args) && done + [fmt[0]] + Rendered(fmt[1..], args) == all
      else
        && |fmt| > 1
        && if TakesArgument(fmt[1]) then
             args != [] && Suits(fmt[1], args[0]) && WellFormed(fmt[2..], args[1..]) &&
             done + Printed(fmt[1], args[0]) + Rendered(fmt[2..], args[1..]) == all
           else
             WellFormed(fmt[2..], args) && done + [fmt[1]] + Rendered(fmt[2..], args) == all
  {
    hide Printed;
  }

  lemma RenderedEnd(done: seq<char>, args: seq<Arg>)
    ensures WellFormed([], args) && done + Rendered([], args) == done
  {
  }

  /** vsprintf: the buffer gets the rendered format with its end, and the result is its length. */
  method Vsprintf(buffer: array<char>, format: seq<char>, args: seq<Arg>) returns (length: int)
    requires WellFormed(format, args) && |Rendered(format, args)| < buffer.Length
    modifies buffer
    ensures length == |Rendered(format, args)|
    ensures Holds(buffer[..], old(buffer[..]), Rendered(format, args))
  {
    ghost var was, done := buffer[..], [];
    assert done + Rendered(format, args) == Rendered(format, args);
    var tmp := new char[SCRATCH];
    var fmt, rest := format, args;
    length := 0;
    hide Written;
    hide Printed;
    hide Rendered;
    hide WellFormed;
    hide Suits;
    while fmt != []
      invariant WellFormed(fmt, rest) && done + Rendered(fmt, rest) == Rendered(format, args)
      invariant length == |done| && Written(buffer[..], was, done)
      decreases |fmt|
    {
      RenderedNext(done, fmt, rest);
      if fmt[0] != '%' {
        length := PutChar(buffer, length, fmt[0], was, done);
        done := done + [fmt[0]];
        fmt := fmt[1..];
      } else if TakesArgument(fmt[1]) {
        length := PutArgument(buffer, length, fmt[1], rest[0], tmp, was, done);
        done := done + Printed(fmt[1], rest[0]);
        fmt, rest := fmt[2..], rest[1..];
      } else {
        length := PutChar(buffer, length, fmt[1], was, done);
        done := done + [fmt[1]];
        fmt := fmt[2..];
      }
    }
    RenderedEnd(done, rest);
    buffer[length] := NUL;
  }
}

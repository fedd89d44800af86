/**
 The formatter that never allocates: it writes into one fixed buffer. `Render` says what the text is;
 the methods write it. A failed assertion of the source (`SAFE_ASSERT`, `SAFE_UNREACHABLE`) ends the
 program, which `Render` shows as None.
 */
module Format {
  import opened Options

  // ---- numbers

  function DigitChar(d: nat): (c: char)
    requires d < 16
    ensures if d < 10 then '0' <= c <= '9' && (c - '0') as nat == d else 'A' <= c <= 'F' && (c - 'A') as nat == d - 10
  {
    "0123456789ABCDEF"[d]
  }

  /** The bases the formatter uses. */
  predicate Base(base: nat) { base == 10 || base == 16 }

  /** The numeral of n, most significant digit first. */
  function Digits(n: nat, base: nat): (r: string)
    requires Base(base)
    ensures |r| > 0
    decreases n
  {
    if n < base then [DigitChar(n)] else Digits(n / base, base) + [DigitChar(n % base)]
  }

  /** The value of a digit, or 16 for any other character. */
  function DigitValue(c: char): nat {
    if '0' <= c <= '9' then (c - '0') as nat else if 'A' <= c <= 'F' then (c - 'A') as nat + 10 else 16
  }

  predicate Numeral(s: string, base: nat) {
    s != [] && forall i :: 0 <= i < |s| ==> DigitValue(s[i]) < base
  }

  function ValueOf(s: string, base: nat): nat {
    if s == [] then 0 else ValueOf(s[..|s| - 1], base) * base + DigitValue(s[|s| - 1])
  }

  lemma DigitCharValue(d: nat)
    requires d < 16
    ensures DigitValue(DigitChar(d)) == d && (DigitChar(d) == '0' <==> d == 0)
  {}

  lemma DigitValueChar(c: char)
    requires DigitValue(c) < 16
    ensures DigitChar(DigitValue(c)) == c
  {}

  /** Reading the digits back gives the number; there are no leading zeros. */
  lemma {:induction false} DigitsRoundTrip(n: nat, base: nat)
    requires Base(base)
    ensures Numeral(Digits(n, base), base) && ValueOf(Digits(n, base), base) == n
    ensures n > 0 ==> Digits(n, base)[0] != '0'
    ensures n == 0 ==> Digits(n, base) == "0"
    decreases n
  {
    if n < base {
      DigitCharValue(n);
      assert Digits(n, base)[..0] == [];
    } else {
      DigitsRoundTrip(n / base, base);
      DigitCharValue(n % base);
      Split(n, base);
      AppendDigit(Digits(n / base, base), n % base, base);
    }
  }

  /** One more digit at the end of a numeral. */
  lemma AppendDigit(s: string, d: nat, base: nat)
    requires Base(base) && Numeral(s, base) && d < base
    ensures Numeral(s + [DigitChar(d)], base) && ValueOf(s + [DigitChar(d)], base) == ValueOf(s, base) * base + d
  {
    var t := s + [DigitChar(d)];
    DigitCharValue(d);
    assert t[..|t| - 1] == s;
  }

  lemma Split(n: nat, base: nat)
    requires Base(base)
    ensures n / base * base + n % base == n
    ensures if n < base then n / base == 0 && n % base == n else 0 < n / base < n
  {
    if base == 10 {} else {}
  }

  /** The numeral is the only one without leading zeros that has its value. */
  lemma {:induction false} DigitsUnique(s: string, base: nat)
    requires Base(base) && Numeral(s, base) && (|s| > 1 ==> s[0] != '0')
    ensures s == Digits(ValueOf(s, base), base) && (s[0] != '0' ==> ValueOf(s, base) > 0)
    decreases |s|
  {
    hide ValueOf, Digits, DigitValue;
    if |s| == 1 {
      OneDigit(s, base);
    } else {
      DigitsUnique(s[..|s| - 1], base);
      assert s == s[..|s| - 1] + [s[|s| - 1]];
      LastDigitUnique(s[..|s| - 1], s[|s| - 1], base);
    }
  }

  lemma OneDigit(s: string, base: nat)
    requires Base(base) && Numeral(s, base) && |s| == 1
    ensures s == Digits(ValueOf(s, base), base) && (s[0] != '0' ==> ValueOf(s, base) > 0)
  {
    assert ValueOf(s[..0], base) == 0;
    DigitValueChar(s[0]);
    DigitCharValue(DigitValue(s[0]));
  }

  lemma LastDigitUnique(front: string, c: char, base: nat)
    requires Base(base) && DigitValue(c) < base && ValueOf(front, base) > 0 && front == Digits(ValueOf(front, base), base)
    ensures front + [c] == Digits(ValueOf(front + [c], base), base) && ValueOf(front + [c], base) > 0
  {
    hide DigitValue, DigitChar;
    DigitValueChar(c);
    assert (front + [c])[..|front|] == front;
    LastDigit(ValueOf(front, base), DigitValue(c), base);
  }

  lemma LastDigit(v: nat, d: nat, base: nat)
    requires Base(base) && v > 0 && d < base
    ensures v * base + d >= base && (v * base + d) / base == v && (v * base + d) % base == d
  {
    if base == 10 {} else {}
  }

  /** `print_int` in base 10. */
  function IntText(num: int): string {
    if num < 0 then "-" + Digits(-num, 10) else Digits(num, 10)
  }

  function IntValue(s: string): int
  {
    if s != [] && s[0] == '-' then -(ValueOf(s[1..], 10) as int) else ValueOf(s, 10)
  }

  lemma IntRoundTrip(num: int)
    ensures IntValue(IntText(num)) == num
    ensures num != 0 ==> IntText(num)[if num < 0 then 1 else 0] != '0'
  {
    hide Digits, ValueOf;
    if num < 0 {
      DigitsRoundTrip(-num, 10);
      assert IntText(num)[1..] == Digits(-num, 10);
    } else {
      DigitsRoundTrip(num, 10);
    }
  }

  // ---- fields

  /** A variadic argument: a machine word, or a string that may be NULL. */
  datatype VaArg = Word(w: nat) | Text(s: Option<string>)

  /** `struct format_modifiers`; a negative width stands for `*`. */
  datatype Modifiers = Modifiers(longness: nat, minFieldWidth: int, justifyLeft: bool, paddingChar: char)

  const MODIFIERS_INIT := Modifiers(0, 0, false, ' ')
  const MIN_FIELD_WIDTH_CUSTOM := -1
  const TWO32 := 0x1_0000_0000
  const TWO64 := 0x1_0000_0000_0000_0000
  const LLONG_MIN := -0x8000_0000_0000_0000

  function Signed(w: nat, modulus: nat): int
    requires modulus > 0
  {
    var v := w % modulus;
    if v >= modulus / 2 then v - modulus else v
  }

  /** `fetch_int_arg` and `fetch_uint_arg`, on an argument word. */
  function IntArg(longness: nat, w: nat): int {
    if longness == 1 || longness == 2 then Signed(w, TWO64) else Signed(w, TWO32)
  }

  function UintArg(longness: nat, w: nat): nat {
    if longness == 1 || longness == 2 then w % TWO64 else w % TWO32
  }

  /** The text of a conversion before padding, and the arguments left; None if the program ends. */
  function Unpadded(specifier: char, longness: nat, args: seq<VaArg>): Option<(string, seq<VaArg>)> {
    match specifier
    case '%' => Some(("%", args))
    case 's' =>
      if args != [] && args[0].Text? then
        Some((match args[0].s { case Some(t) => t case None => "(null str)" }, args[1..]))
      else None
    case _ =>
      if args == [] || !args[0].Word? then None
      else match WordText(specifier, longness, args[0].w) {
        case Some(t) => Some((t, args[1..]))
        case None => None
      }
  }

  /** The conversions of a word. */
  function WordText(specifier: char, longness: nat, w: nat): Option<string> {
    match specifier
    case 'd' => if IntArg(longness, w) == LLONG_MIN then None else Some(IntText(IntArg(longness, w)))
    case 'i' => if IntArg(longness, w) == LLONG_MIN then None else Some(IntText(IntArg(longness, w)))
    case 'u' => Some(Digits(UintArg(longness, w), 10))
    case 'x' => Some(Digits(UintArg(longness, w), 16))
    case 'X' => Some(Digits(UintArg(longness, w), 16))
    case 'p' => Some(if w % TWO64 != 0 then "0x" + Digits(w % TWO64, 16) else "(null ptr)")
    case 'c' => Some([(w % 256) as char])
    case _ => None
  }

  function Repeat(c: char, n: nat): (r: string)
    ensures |r| == n && forall i :: 0 <= i < n ==> r[i] == c
  {
    seq(n, _ => c)
  }

  /** Padding to the minimum width; left-justified fields are always padded with spaces. */
  function Padded(text: string, width: nat, mods: Modifiers): (r: string)
  {
    if |text| >= width then text
    else if mods.justifyLeft then text + Repeat(' ', width - |text|)
    else Repeat(mods.paddingChar, width - |text|) + text
  }

  /** A field has the width asked for or the length of its text, and the text is one end of it. */
  lemma PaddedLength(text: string, width: nat, mods: Modifiers)
    ensures |Padded(text, width, mods)| == if |text| > width then |text| else width
    ensures mods.justifyLeft ==> text <= Padded(text, width, mods)
    ensures !mods.justifyLeft ==> var r := Padded(text, width, mods); r[|r| - |text|..] == text
    ensures var r := Padded(text, width, mods);
            forall i :: 0 <= i < |r| ==> if mods.justifyLeft then i >= |text| ==> r[i] == ' '
                                         else i < |r| - |text| ==> r[i] == mods.paddingChar
  {}

  /** `handle_format`: a custom width is the first argument taken. */
  function Field(specifier: char, mods: Modifiers, args: seq<VaArg>): Option<(string, seq<VaArg>)> {
    if mods.minFieldWidth == MIN_FIELD_WIDTH_CUSTOM then
      if args == [] || !args[0].Word? || Signed(args[0].w, TWO32) < 0 then None
      else WithWidth(specifier, Signed(args[0].w, TWO32), mods, args[1..])
    else if mods.minFieldWidth < 0 then None
    else WithWidth(specifier, mods.minFieldWidth, mods, args)
  }

  function WithWidth(specifier: char, width: nat, mods: Modifiers, args: seq<VaArg>): Option<(string, seq<VaArg>)> {
    match Unpadded(specifier, mods.longness, args)
    case Some((text, rest)) => Some((Padded(text, width, mods), rest))
    case None => None
  }

  lemma WidthParts(specifier: char, width: nat, mods: Modifiers, args: seq<VaArg>)
    requires WithWidth(specifier, width, mods, args).Some?
    ensures Unpadded(specifier, mods.longness, args).Some?
    ensures var (text, rest) := Unpadded(specifier, mods.longness, args).value;
            WithWidth(specifier, width, mods, args) == Some((Padded(text, width, mods), rest))
  {}

  // ---- formats

  /** One modifier character; None if it is not one, or if the source's assertion about it fails. */
  function Modify(mods: Modifiers, c: char): Option<Modifiers> {
    if c == 'l' then Some(mods.(longness := mods.longness + 1))
    else if c == 'z' then Some(mods.(longness := 2))
    else if c == '-' then Some(mods.(justifyLeft := true))
    else if c == '0' && mods.minFieldWidth == 0 then Some(mods.(paddingChar := '0'))
    else if '0' <= c <= '9' && mods.minFieldWidth != MIN_FIELD_WIDTH_CUSTOM then
      Some(mods.(minFieldWidth := mods.minFieldWidth * 10 + (c - '0') as int))
    else if c == '*' && mods.minFieldWidth == 0 then Some(mods.(minFieldWidth := MIN_FIELD_WIDTH_CUSTOM))
    else None
  }

  predicate IsModifier(c: char) { c in "lz-*" || '0' <= c <= '9' }

  /** The modifiers at the start of s, and what follows them. */
  function ParseModifiers(mods: Modifiers, s: string): Option<(Modifiers, string)>
    decreases |s|
  {
    if s == [] || !IsModifier(s[0]) then Some((mods, s))
    else match Modify(mods, s[0]) {
      case Some(mods') => ParseModifiers(mods', s[1..])
      case None => None
    }
  }

  lemma {:induction false} ParseShortens(mods: Modifiers, s: string)
    ensures ParseModifiers(mods, s).Some? ==> |ParseModifiers(mods, s).value.1| <= |s|
    decreases |s|
  {
    if s != [] && IsModifier(s[0]) && Modify(mods, s[0]).Some? { ParseShortens(Modify(mods, s[0]).value, s[1..]); }
  }

  /** The text a format and its arguments stand for, and the arguments not used. */
  function Render(format: string, args: seq<VaArg>): Option<(string, seq<VaArg>)>
    decreases |format|
  {
    if format == [] then Some(("", args))
    else if format[0] != '%' then Prepend([format[0]], Render(format[1..], args))
    else
      match ParseModifiers(MODIFIERS_INIT, format[1..])
      case None => None
      case Some((mods, rest)) =>
        if rest == [] then None
        else match Field(rest[0], mods, args) {
          case None => None
          case Some((text, args')) =>
            ParseShortens(MODIFIERS_INIT, format[1..]);
            Prepend(text, Render(rest[1..], args'))
        }
  }

  function Prepend(text: string, r: Option<(string, seq<VaArg>)>): Option<(string, seq<VaArg>)> {
    match r
    case Some((t, args)) => Some((text + t, args))
    case None => None
  }

  /** A longer string has the same modifiers at its start, as long as they end in the shorter one. */
  lemma {:induction false} ParseAppend(mods: Modifiers, s: string, t: string)
    requires ParseModifiers(mods, s).Some? && ParseModifiers(mods, s).value.1 != []
    ensures var (mods', rest) := ParseModifiers(mods, s).value;
            ParseModifiers(mods, s + t) == Some((mods', rest + t))
    decreases |s|
  {
    assert (s + t)[0] == s[0];
    if IsModifier(s[0]) {
      ParseAppend(Modify(mods, s[0]).value, s[1..], t);
      assert (s + t)[1..] == s[1..] + t;
    }
  }

  /** Formatting a concatenation: the second format goes on with the arguments the first left over. */
  lemma {:induction false} RenderAppend(f: string, g: string, args: seq<VaArg>)
    requires Render(f, args).Some?
    ensures var (text, rest) := Render(f, args).value;
            Render(f + g, args) == Prepend(text, Render(g, rest))
    decreases |f|
  {
    if f == [] {
      assert f + g == g && Prepend("", Render(g, args)) == Render(g, args) by { PrependNothing(Render(g, args)); }
    } else if f[0] != '%' {
      RenderAppend(f[1..], g, args);
      assert (f + g)[0] == f[0] && (f + g)[1..] == f[1..] + g;
      PrependTwice([f[0]], Render(f[1..], args).value.0, Render(g, Render(f[1..], args).value.1));
    } else {
      var (mods, rest) := ParseModifiers(MODIFIERS_INIT, f[1..]).value;
      var (text, args') := Field(rest[0], mods, args).value;
      ParseShortens(MODIFIERS_INIT, f[1..]);
      ParseAppend(MODIFIERS_INIT, f[1..], g);
      RenderAppend(rest[1..], g, args');
      assert (f + g)[0] == f[0] && (f + g)[1..] == f[1..] + g && (rest + g)[1..] == rest[1..] + g;
      PrependTwice(text, Render(rest[1..], args').value.0, Render(g, Render(rest[1..], args').value.1));
    }
  }

  lemma PrependNothing(r: Option<(string, seq<VaArg>)>)
    ensures Prepend("", r) == r
  {
    if r.Some? { assert "" + r.value.0 == r.value.0; }
  }

  lemma PrependTwice(a: string, b: string, r: Option<(string, seq<VaArg>)>)
    ensures Prepend(a, Prepend(b, r)) == Prepend(a + b, r)
  {
    if r.Some? { assert a + (b + r.value.0) == (a + b) + r.value.0; }
  }

  /** A format without conversions is its own text. */
  lemma {:induction false} RenderPlain(f: string, args: seq<VaArg>)
    requires '%' !in f
    ensures Render(f, args) == Some((f, args))
  {
    if f != [] {
      RenderPlain(f[1..], args);
      assert [f[0]] + f[1..] == f;
    }
  }

  // ---- the buffer

  /** The characters written since position `start` are `text`; nothing below `start` has changed. */
  twostate predicate Wrote(buffer: array<char>, start: nat, text: string)
    reads buffer
  {
    start + |text| <= buffer.Length && buffer[..start + |text|] == old(buffer[..start]) + text
  }

  /** `print_str` */
  method PrintStr(buffer: array<char>, dest: nat, src: string) returns (n: nat)
    requires dest + |src| <= buffer.Length
    modifies buffer
    ensures n == |src| && Wrote(buffer, dest, src)
  {
    n := 0;
    while n < |src|
      invariant n <= |src| && buffer[..dest + n] == old(buffer[..dest]) + src[..n]
    {
      buffer[dest + n] := src[n];
      n := n + 1;
    }
    assert src[..n] == src;
  }

  /** The digits still to be written when `rest` is left of the number. */
  function Higher(rest: nat, base: nat): string
    requires Base(base)
  {
    if rest == 0 then [] else Digits(rest, base)
  }

  /** `"0123456789ABCDEF"[num % base]` */
  function LowDigit(n: nat, base: nat): char
    requires Base(base)
  {
    DigitChar(n % base)
  }

  /** `num /= base` */
  function WithoutLast(n: nat, base: nat): nat
    requires Base(base)
  {
    n / base
  }

  lemma LastWritten(n: nat, base: nat)
    requires Base(base)
    ensures Digits(n, base) == Higher(WithoutLast(n, base), base) + [LowDigit(n, base)]
    ensures n > 0 ==> Higher(n, base) == Digits(n, base) && WithoutLast(n, base) < n
  {
    hide DigitChar;
    Split(n, base);
  }

  /** The first loop of `print_uint`: how far away the number ends. */
  method CountDigits(num: nat, base: nat) returns (n: nat)
    requires Base(base)
    ensures n == |Digits(num, base)|
  {
    hide Digits, Higher, LowDigit, WithoutLast;
    var i: nat := WithoutLast(num, base);
    n := 1;
    LastWritten(num, base);
    HigherNone(base);
    while i > 0
      invariant n + |Higher(i, base)| == |Digits(num, base)|
    {
      LastWritten(i, base);
      n, i := n + 1, WithoutLast(i, base);
    }
  }

  /** `*(--dest) = digit` */
  method WriteBefore(buffer: array<char>, at: nat, c: char, ghost start: nat, ghost end: nat)
    requires start <= at < end <= buffer.Length
    modifies buffer
    ensures buffer[at..end] == [c] + old(buffer[at + 1..end]) && buffer[..start] == old(buffer[..start])
  {
    buffer[at] := c;
  }

  /** `print_uint`: the digits are written from the end backwards. */
  method PrintUint(buffer: array<char>, dest: nat, num: nat, base: nat) returns (nchars: nat)
    requires Base(base) && dest + |Digits(num, base)| <= buffer.Length
    modifies buffer
    ensures nchars == |Digits(num, base)| && Wrote(buffer, dest, Digits(num, base))
  {
    hide Digits, Higher, LowDigit, WithoutLast;
    ghost var all := Digits(num, base);
    var len := CountDigits(num, base);
    var end := dest + len;
    LastWritten(num, base);
    HigherNone(base);
    nchars := 1;
    WriteBefore(buffer, end - 1, LowDigit(num, base), dest, end);
    var rest: nat := WithoutLast(num, base);
    ghost var tail := buffer[end - 1..end];
    while rest > 0
      invariant 1 <= nchars <= len && len == |all| && end == dest + len <= buffer.Length
      invariant buffer[end - nchars..end] == tail && Higher(rest, base) + tail == all
      invariant buffer[..dest] == old(buffer[..dest])
    {
      LastWritten(rest, base);
      Regroup(Higher(WithoutLast(rest, base), base), LowDigit(rest, base), tail);
      nchars := nchars + 1;
      WriteBefore(buffer, end - nchars, LowDigit(rest, base), dest, end);
      tail := [LowDigit(rest, base)] + tail;
      rest := WithoutLast(rest, base);
    }
    assert buffer[..end] == buffer[..dest] + buffer[dest..end];
  }

  lemma Regroup(a: string, c: char, b: string)
    ensures (a + [c]) + b == a + ([c] + b)
  {}

  lemma HigherNone(base: nat)
    requires Base(base)
    ensures Higher(0, base) == []
  {}

  /** `print_int`, in base 10. */
  method PrintInt(buffer: array<char>, dest: nat, num: int) returns (nchars: nat)
    requires num != LLONG_MIN && dest + |IntText(num)| <= buffer.Length
    modifies buffer
    ensures nchars == |IntText(num)| && Wrote(buffer, dest, IntText(num))
  {
    hide Digits;
    if num < 0 {
      buffer[dest] := '-';
      ghost var sofar := buffer[..dest + 1];
      assert sofar == old(buffer[..dest]) + "-";
      nchars := PrintUint(buffer, dest + 1, -num, 10);
      assert buffer[..dest + 1 + nchars] == old(buffer[..dest]) + IntText(num);
      nchars := nchars + 1;
    } else {
      nchars := PrintUint(buffer, dest, num, 10);
    }
  }

  /** A loop of `handle_format` that writes n times the same character. */
  method Fill(buffer: array<char>, dest: nat, c: char, n: nat)
    requires dest + n <= buffer.Length
    modifies buffer
    ensures Wrote(buffer, dest, Repeat(c, n))
  {
    var i := 0;
    while i < n
      invariant i <= n && buffer[..dest + i] == old(buffer[..dest]) + Repeat(c, i)
    {
      buffer[dest + i] := c;
      i := i + 1;
    }
  }

  lemma AppendAssoc(a: string, b: string, c: string)
    ensures a + (b + c) == a + b + c
  {}

  /** The padding of a text that has just been written at `start`: after it, or, moving it, before it. */
  method Pad(buffer: array<char>, start: nat, unpaddedLen: nat, ghost text: string, width: nat, mods: Modifiers) returns (n: nat)
    requires unpaddedLen == |text| && start + |text| <= buffer.Length && start + |Padded(text, width, mods)| <= buffer.Length
    requires buffer[start..start + |text|] == text
    modifies buffer
    ensures n == |Padded(text, width, mods)| && Wrote(buffer, start, Padded(text, width, mods))
  {
    hide Repeat;
    n := unpaddedLen;
    assert buffer[..start + n] == buffer[..start] + text;
    if n < width {
      if mods.justifyLeft {
        Fill(buffer, start + n, ' ', width - n);
        AppendAssoc(old(buffer[..start]), text, Repeat(' ', width - n));
      } else {
        PadBefore(buffer, start, n, text, mods.paddingChar, width - n);
      }
      n := width;
    }
  }

  /** Right justification: the text is saved, overwritten by padding, and written again behind it. */
  method PadBefore(buffer: array<char>, start: nat, len: nat, ghost text: string, c: char, paddingLen: nat)
    requires len == |text| && start + len + paddingLen <= buffer.Length && buffer[start..start + len] == text
    modifies buffer
    ensures Wrote(buffer, start, Repeat(c, paddingLen) + text)
  {
    hide Repeat;
    var tmp := buffer[start..start + len];
    Fill(buffer, start, c, paddingLen);
    var _ := PrintStr(buffer, start + paddingLen, tmp);
    AppendAssoc(old(buffer[..start]), Repeat(c, paddingLen), text);
  }

  /** The switch of `handle_format`: the text of the conversion, without padding. */
  method Convert(buffer: array<char>, dest: nat, specifier: char, longness: nat, args: seq<VaArg>)
    returns (n: nat, rest: seq<VaArg>)
    requires Unpadded(specifier, longness, args).Some?
    requires dest + |Unpadded(specifier, longness, args).value.0| <= buffer.Length
    modifies buffer
    ensures var (text, args') := Unpadded(specifier, longness, args).value;
            n == |text| && Wrote(buffer, dest, text) && rest == args'
  {
    hide Digits, IntText;
    match specifier {
      case '%' =>
        n, rest := 1, args;
        buffer[dest] := '%';
        assert buffer[..dest + 1] == old(buffer[..dest]) + "%";
      case 's' =>
        rest := args[1..];
        match args[0].s {
          case Some(t) => n := PrintStr(buffer, dest, t);
          case None => n := PrintStr(buffer, dest, "(null str)");
        }
      case _ =>
        rest := args[1..];
        n := ConvertWord(buffer, dest, specifier, longness, args[0].w);
    }
  }

  method ConvertWord(buffer: array<char>, dest: nat, specifier: char, longness: nat, w: nat) returns (n: nat)
    requires WordText(specifier, longness, w).Some?
    requires dest + |WordText(specifier, longness, w).value| <= buffer.Length
    modifies buffer
    ensures n == |WordText(specifier, longness, w).value| && Wrote(buffer, dest, WordText(specifier, longness, w).value)
  {
    hide Digits, IntText, IntArg, UintArg;
    match specifier {
      case 'd' => n := PrintInt(buffer, dest, IntArg(longness, w));
      case 'i' => n := PrintInt(buffer, dest, IntArg(longness, w));
      case 'u' => n := PrintUint(buffer, dest, UintArg(longness, w), 10);
      case 'x' => n := PrintUint(buffer, dest, UintArg(longness, w), 16);
      case 'X' => n := PrintUint(buffer, dest, UintArg(longness, w), 16);
      case 'p' =>
        if w % TWO64 != 0 {
          n := PrintStr(buffer, dest, "0x");
          ghost var sofar := buffer[..dest + 2];
          var digits := PrintUint(buffer, dest + n, w % TWO64, 16);
          assert buffer[..dest + 2 + digits] == old(buffer[..dest]) + ("0x" + Digits(w % TWO64, 16));
          n := n + digits;
        } else {
          n := PrintStr(buffer, dest, "(null ptr)");
        }
      case 'c' =>
        n := 1;
        buffer[dest] := (w % 256) as char;
        assert buffer[..dest + 1] == old(buffer[..dest]) + [(w % 256) as char];
    }
  }

  /** `handle_format` */
  method HandleFormat(buffer: array<char>, dest: nat, specifier: char, mods: Modifiers, args: seq<VaArg>)
    returns (n: nat, rest: seq<VaArg>)
    requires Field(specifier, mods, args).Some?
    requires dest + |Field(specifier, mods, args).value.0| <= buffer.Length
    modifies buffer
    ensures var (text, args') := Field(specifier, mods, args).value;
            n == |text| && Wrote(buffer, dest, text) && rest == args'
  {
    hide Unpadded, Padded, WithWidth;
    var width, args0 := mods.minFieldWidth, args;
    if width == MIN_FIELD_WIDTH_CUSTOM {
      width, args0 := Signed(args[0].w, TWO32), args[1..];
    }
    assert Field(specifier, mods, args) == WithWidth(specifier, width, mods, args0);
    hide Field, Signed;
    WidthParts(specifier, width, mods, args0);
    ghost var text := Unpadded(specifier, mods.longness, args0).value.0;
    PaddedLength(text, width, mods);
    n, rest := Convert(buffer, dest, specifier, mods.longness, args0);
    n := Pad(buffer, dest, n, text, width, mods);
  }

  /** The loop over the modifiers of one conversion. */
  method ReadModifiers(format: string, start: nat) returns (mods: Modifiers, at: nat)
    requires start <= |format| && ParseModifiers(MODIFIERS_INIT, format[start..]).Some?
    ensures start <= at <= |format| && ParseModifiers(MODIFIERS_INIT, format[start..]) == Some((mods, format[at..]))
  {
    mods, at := MODIFIERS_INIT, start;
    while at < |format| && IsModifier(format[at])
      invariant start <= at <= |format|
      invariant ParseModifiers(MODIFIERS_INIT, format[start..]) == ParseModifiers(mods, format[at..])
    {
      assert format[at..][0] == format[at] && format[at..][1..] == format[at + 1..];
      var c := format[at];
      if c == 'l' {
        mods := mods.(longness := mods.longness + 1);
      } else if c == 'z' {
        mods := mods.(longness := 2);
      } else if c == '-' {
        mods := mods.(justifyLeft := true);
      } else if c == '*' {
        mods := mods.(minFieldWidth := MIN_FIELD_WIDTH_CUSTOM);
      } else if c == '0' && mods.minFieldWidth == 0 {
        mods := mods.(paddingChar := '0');
      } else {
        mods := mods.(minFieldWidth := mods.minFieldWidth * 10 + (c - '0') as int);
      }
      at := at + 1;
    }
  }

  /**
   `do_vsprintf`: given a buffer that is large enough and a format the program survives, the buffer
   holds exactly the text the pure formatter specifies, and a terminator.
   */
  method DoVsprintf(buffer: array<char>, format: string, args: seq<VaArg>) returns (len: nat)
    requires Render(format, args).Some? && |Render(format, args).value.0| < buffer.Length
    modifies buffer
    ensures len == |Render(format, args).value.0| && buffer[..len] == Render(format, args).value.0
    ensures buffer[len] == '\0'
  {
    var at, rest := 0, args;
    len := 0;
    assert format[0..] == format;
    PrependNothing(Render(format, args));
    while at < |format|
      invariant at <= |format| && len <= buffer.Length
      invariant Render(format, args) == Prepend(buffer[..len], Render(format[at..], rest))
    {
      ghost var done, todo := buffer[..len], format[at..];
      assert todo[0] == format[at] && todo[1..] == format[at + 1..];
      if format[at] != '%' {
        PrependTwice(done, [format[at]], Render(format[at + 1..], rest));
        buffer[len] := format[at];
        assert buffer[..len + 1] == done + [format[at]];
        at, len := at + 1, len + 1;
      } else {
        at, len, rest := OneConversion(buffer, len, format, at, rest);
      }
    }
    assert format[at..] == [] && buffer[..len] + "" == buffer[..len];
    buffer[len] := '\0';
  }

  /** A conversion, from its `%` to its specifier. */
  method OneConversion(buffer: array<char>, len: nat, format: string, start: nat, args: seq<VaArg>)
    returns (at: nat, len': nat, rest: seq<VaArg>)
    requires start < |format| && format[start] == '%' && len <= buffer.Length
    requires var r := Render(format[start..], args); r.Some? && len + |r.value.0| <= buffer.Length
    modifies buffer
    ensures start < at <= |format| && len <= len' <= buffer.Length
    ensures Prepend(old(buffer[..len]), Render(format[start..], args)) == Prepend(buffer[..len'], Render(format[at..], rest))
  {
    hide Field;
    ghost var done := buffer[..len];
    assert format[start..][0] == format[start] && format[start..][1..] == format[start + 1..];
    var mods, p := ReadModifiers(format, start + 1);
    assert format[p..][0] == format[p] && format[p..][1..] == format[p + 1..];
    var n;
    n, rest := HandleFormat(buffer, len, format[p], mods, args);
    at, len' := p + 1, len + n;
    PrependTwice(done, Field(format[p], mods, args).value.0, Render(format[at..], rest));
  }
}

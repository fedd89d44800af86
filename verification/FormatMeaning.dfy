/**
 What each conversion prints, said of the format string itself and by reading the text back: which
 arguments it takes, what number or string its text stands for, and where the padding goes.
 */
module FormatMeaning {
  import opened Options
  import opened Format

  // ---- modifiers

  predicate IsDigit(c: char) { '0' <= c <= '9' }

  predicate IsNonzeroDigit(c: char) { '1' <= c <= '9' }

  /** The digits among the modifiers. */
  function DigitsAmong(ms: string): (r: string)
    ensures forall i :: 0 <= i < |r| ==> IsDigit(r[i])
  {
    if ms == [] then [] else DigitsAmong(ms[..|ms| - 1]) + (if IsDigit(ms[|ms| - 1]) then [ms[|ms| - 1]] else [])
  }

  /** No other width before or after a `*`; zeros before it ask for padding. */
  predicate WidthsAgree(ms: string) {
    forall i :: 0 <= i < |ms| && ms[i] == '*' ==>
      && (forall j :: 0 <= j < i ==> ms[j] != '*' && !IsNonzeroDigit(ms[j]))
      && (forall j :: i < j < |ms| ==> !IsDigit(ms[j]))
  }

  /** A zero with no other digit before it. */
  predicate PadsWithZero(ms: string) {
    exists i :: 0 <= i < |ms| && ms[i] == '0' && forall j :: 0 <= j < i ==> !IsNonzeroDigit(ms[j])
  }

  /** How often `l` occurs after the last `z`, which counts as two. */
  function Longness(ms: string): nat {
    if ms == [] then 0
    else match ms[|ms| - 1] {
      case 'z' => 2
      case 'l' => Longness(ms[..|ms| - 1]) + 1
      case _ => Longness(ms[..|ms| - 1])
    }
  }

  /** The modifiers read one after the other. */
  function Modified(ms: string): Option<Modifiers> {
    if ms == [] then Some(MODIFIERS_INIT)
    else match Modified(ms[..|ms| - 1]) {
      case Some(mods) => Modify(mods, ms[|ms| - 1])
      case None => None
    }
  }

  predicate AllModifiers(ms: string) {
    forall i :: 0 <= i < |ms| ==> ms[i] in "lz-*" || IsDigit(ms[i])
  }

  ghost predicate Means(mods: Modifiers, ms: string) {
    && (mods.justifyLeft <==> '-' in ms)
    && mods.paddingChar == (if PadsWithZero(ms) then '0' else ' ')
    && mods.minFieldWidth == (if '*' in ms then -1 else ValueOf(DigitsAmong(ms), 10))
    && mods.longness == Longness(ms)
  }

  predicate NoWidth(ms: string) {
    forall i :: 0 <= i < |ms| ==> ms[i] != '*' && !IsNonzeroDigit(ms[i])
  }

  lemma LastOf(ms: string)
    requires ms != []
    ensures var a, c := ms[..|ms| - 1], ms[|ms| - 1];
            && ms == a + [c] && (AllModifiers(ms) ==> AllModifiers(a) && (c in "lz-*" || IsDigit(c)))
            && ('-' in ms <==> '-' in a || c == '-') && ('*' in ms <==> '*' in a || c == '*')
            && (NoWidth(ms) <==> NoWidth(a) && c != '*' && !IsNonzeroDigit(c))
  {
    var a, c := ms[..|ms| - 1], ms[|ms| - 1];
    assert ms == a + [c];
    assert forall i :: 0 <= i < |a| ==> a[i] == ms[i];
  }

  lemma PadsStep(ms: string)
    requires ms != []
    ensures var a, c := ms[..|ms| - 1], ms[|ms| - 1];
            PadsWithZero(ms) <==> PadsWithZero(a) || (c == '0' && forall i :: 0 <= i < |a| ==> !IsNonzeroDigit(a[i]))
  {
    var a := ms[..|ms| - 1];
    assert forall i :: 0 <= i < |a| ==> a[i] == ms[i];
    if PadsWithZero(ms) {
      var i :| 0 <= i < |ms| && ms[i] == '0' && forall j :: 0 <= j < i ==> !IsNonzeroDigit(ms[j]);
      assert i < |a| ==> a[i] == '0';
    }
    if PadsWithZero(a) {
      var i :| 0 <= i < |a| && a[i] == '0' && forall j :: 0 <= j < i ==> !IsNonzeroDigit(a[j]);
      assert ms[i] == '0';
    }
  }

  lemma AgreeStep(ms: string)
    requires ms != []
    ensures var a, c := ms[..|ms| - 1], ms[|ms| - 1];
            WidthsAgree(ms) <==> WidthsAgree(a) && (c == '*' ==> NoWidth(a)) && (IsDigit(c) ==> '*' !in a)
  {
    var a, c := ms[..|ms| - 1], ms[|ms| - 1];
    assert forall i :: 0 <= i < |a| ==> a[i] == ms[i];
    if WidthsAgree(ms) {
      assert WidthsAgree(a);
      if '*' in a { var i :| 0 <= i < |a| && a[i] == '*'; assert ms[i] == '*'; }
    }
  }

  /** A width of its own is 0 exactly when no digit but zeros has been read. */
  lemma WidthStep(ms: string)
    requires ms != []
    ensures var a, c := ms[..|ms| - 1], ms[|ms| - 1];
            ValueOf(DigitsAmong(ms), 10) ==
              if IsDigit(c) then ValueOf(DigitsAmong(a), 10) * 10 + (c - '0') as nat else ValueOf(DigitsAmong(a), 10)
  {
    var a, c := ms[..|ms| - 1], ms[|ms| - 1];
    if IsDigit(c) {
      var d := DigitsAmong(a) + [c];
      assert d[..|d| - 1] == DigitsAmong(a);
    } else {
      assert DigitsAmong(a) + [] == DigitsAmong(a);
    }
  }

  /** Which modifiers the program survives, and what they mean. */
  lemma {:induction false} ModifiedMeans(ms: string)
    requires AllModifiers(ms)
    ensures Modified(ms).Some? <==> WidthsAgree(ms)
    ensures Modified(ms).Some? ==> Means(Modified(ms).value, ms) && (Modified(ms).value.minFieldWidth == 0 <==> NoWidth(ms))
    decreases |ms|
  {
    if ms == [] {
      assert DigitsAmong(ms) == [] && !PadsWithZero(ms);
    } else {
      ModifiedMeans(ms[..|ms| - 1]);
      if WidthsAgree(ms[..|ms| - 1]) { ModifyMeans(ms, Modified(ms[..|ms| - 1]).value); } else { AgreeStep(ms); }
    }
  }

  /** One more modifier. */
  lemma ModifyMeans(ms: string, mods: Modifiers)
    requires ms != [] && AllModifiers(ms)
    requires var a := ms[..|ms| - 1]; WidthsAgree(a) && Means(mods, a) && (mods.minFieldWidth == 0 <==> NoWidth(a))
    ensures var r := Modify(mods, ms[|ms| - 1]);
            && (r.Some? <==> WidthsAgree(ms))
            && (r.Some? ==> Means(r.value, ms) && (r.value.minFieldWidth == 0 <==> NoWidth(ms)))
  {
    var a := ms[..|ms| - 1];
    LastOf(ms);
    NoWidthPads(a);
    ModifyWidth(ms, mods);
    if Modify(mods, ms[|ms| - 1]).Some? {
      ModifyPadding(ms, mods);
      ModifyRest(ms, mods);
    }
    hide Modify, PadsWithZero, WidthsAgree, NoWidth, DigitsAmong, ValueOf, AllModifiers, Longness;
  }

  lemma ModifyWidth(ms: string, mods: Modifiers)
    requires ms != [] && AllModifiers(ms)
    requires var a := ms[..|ms| - 1];
             && WidthsAgree(a) && mods.minFieldWidth == (if '*' in a then -1 else ValueOf(DigitsAmong(a), 10))
             && (mods.minFieldWidth == 0 <==> NoWidth(a))
    ensures var r := Modify(mods, ms[|ms| - 1]);
            && (r.Some? <==> WidthsAgree(ms))
            && (r.Some? ==> r.value.minFieldWidth == (if '*' in ms then -1 else ValueOf(DigitsAmong(ms), 10)))
            && (r.Some? ==> (r.value.minFieldWidth == 0 <==> NoWidth(ms)))
  {
    LastOf(ms);
    AgreeStep(ms);
    WidthStep(ms);
    var a := ms[..|ms| - 1];
    NoWidthPads(a);
    WidthOne(mods, ms[|ms| - 1], '*' in a, NoWidth(a), ValueOf(DigitsAmong(a), 10));
    hide *;
  }

  /** The width after one more character, from whether there is a star or no width before. */
  lemma WidthOne(mods: Modifiers, c: char, star: bool, plain: bool, v: nat)
    requires c in "lz-*" || IsDigit(c)
    requires mods.minFieldWidth == (if star then -1 else v) && (mods.minFieldWidth == 0 <==> plain)
    ensures var r := Modify(mods, c);
            && (r.Some? <==> (c == '*' ==> plain) && (IsDigit(c) ==> !star))
            && (r.Some? ==> r.value.minFieldWidth
                              == if star || c == '*' then -1 else if IsDigit(c) then v * 10 + (c - '0') as nat else v)
            && (r.Some? ==> (r.value.minFieldWidth == 0 <==> plain && c != '*' && !IsNonzeroDigit(c)))
  {}

  lemma ModifyPadding(ms: string, mods: Modifiers)
    requires ms != [] && AllModifiers(ms) && Modify(mods, ms[|ms| - 1]).Some?
    requires var a := ms[..|ms| - 1];
             && mods.paddingChar == (if PadsWithZero(a) then '0' else ' ') && (mods.minFieldWidth == 0 <==> NoWidth(a))
             && ('*' in a ==> mods.minFieldWidth == -1)
    ensures Modify(mods, ms[|ms| - 1]).value.paddingChar == (if PadsWithZero(ms) then '0' else ' ')
  {
    PadsStep(ms);
    NoWidthPads(ms[..|ms| - 1]);
    hide PadsWithZero, NoWidth, AllModifiers;
  }

  lemma ModifyRest(ms: string, mods: Modifiers)
    requires ms != [] && AllModifiers(ms) && Modify(mods, ms[|ms| - 1]).Some?
    requires var a := ms[..|ms| - 1]; (mods.justifyLeft <==> '-' in a) && mods.longness == Longness(a)
    ensures var r := Modify(mods, ms[|ms| - 1]).value; (r.justifyLeft <==> '-' in ms) && r.longness == Longness(ms)
  {
    LastOf(ms);
    hide AllModifiers;
  }

  lemma NoWidthPads(a: string)
    ensures NoWidth(a) <==> '*' !in a && forall i :: 0 <= i < |a| ==> !IsNonzeroDigit(a[i])
  {
    if '*' in a { var i :| 0 <= i < |a| && a[i] == '*'; }
  }

  lemma {:induction false} NoneStays(a: string, b: string)
    requires Modified(a).None?
    ensures Modified(a + b).None?
    decreases |b|
  {
    if b == [] {
      assert a + b == a;
    } else {
      NoneStays(a, b[..|b| - 1]);
      assert (a + b)[..|a + b| - 1] == a + b[..|b| - 1];
    }
  }

  /** The parser reads all the modifiers, one after the other. */
  lemma {:induction false} ParseAll(done: string, ms: string, rest: string)
    requires AllModifiers(ms) && rest != [] && !IsModifier(rest[0]) && Modified(done).Some?
    ensures ParseModifiers(Modified(done).value, ms + rest) ==
              match Modified(done + ms) { case Some(mods) => Some((mods, rest)) case None => None }
    decreases |ms|
  {
    if ms == [] {
      assert ms + rest == rest && done + ms == done;
    } else {
      var c, tail := ms[0], ms[1..];
      assert (ms + rest)[0] == c && (ms + rest)[1..] == tail + rest && IsModifier(c);
      assert (done + [c])[..|done|] == done && done + ms == done + [c] + tail;
      if Modify(Modified(done).value, c).Some? {
        ParseAll(done + [c], tail, rest);
      } else {
        NoneStays(done + [c], tail);
      }
    }
  }

  // ---- conversions

  /** t reads as v in the base, without leading zeros. */
  predicate ReadsAs(t: string, base: nat, v: nat) {
    Numeral(t, base) && ValueOf(t, base) == v && (|t| > 1 ==> t[0] != '0')
  }

  /** The number a word stands for in two's complement. */
  function TwosComplement(w: nat, modulus: nat): int
    requires modulus > 0
  {
    if 2 * (w % modulus) >= modulus then w % modulus - modulus else w % modulus
  }

  /** Whether the program survives the conversion. The smallest 64-bit integer cannot be printed. */
  predicate Survives(spec: char, modulus: nat, args: seq<VaArg>)
    requires modulus > 0
  {
    spec == '%' ||
    (args != [] &&
      if spec == 's' then args[0].Text?
      else args[0].Word? && spec in "diuxXpc" && (spec in "di" ==> TwosComplement(args[0].w, modulus) != -0x8000_0000_0000_0000))
  }

  /** What the text of a conversion stands for. */
  predicate Prints(spec: char, modulus: nat, args: seq<VaArg>, t: string)
    requires modulus > 0 && Survives(spec, modulus, args)
  {
    match spec
    case '%' => t == "%"
    case 's' => t == (match args[0].s { case Some(text) => text case None => "(null str)" })
    case 'u' => ReadsAs(t, 10, args[0].w % modulus)
    case 'x' => ReadsAs(t, 16, args[0].w % modulus)
    case 'X' => ReadsAs(t, 16, args[0].w % modulus)
    case 'p' =>
      var v := args[0].w % 0x1_0000_0000_0000_0000;
      if v == 0 then t == "(null ptr)" else |t| > 2 && t[..2] == "0x" && ReadsAs(t[2..], 16, v)
    case 'c' => |t| == 1 && t[0] as nat == args[0].w % 256
    case _ =>
      var v := TwosComplement(args[0].w, modulus);
      if v < 0 then |t| > 1 && t[0] == '-' && ReadsAs(t[1..], 10, -v) else ReadsAs(t, 10, v)
  }

  /** Some numerals, read. */
  lemma NumeralsRead()
    ensures ReadsAs("4096", 10, 4096) && ReadsAs("1000", 16, 4096) && ReadsAs("1F", 16, 31) && ReadsAs("0", 10, 0)
  {
    assert "4096"[..3] == "409" && "409"[..2] == "40" && "40"[..1] == "4" && "4"[..0] == "";
    assert "1000"[..3] == "100" && "100"[..2] == "10" && "10"[..1] == "1" && "1"[..0] == "";
    assert "1F"[..1] == "1" && "0"[..0] == "";
    assert ValueOf("4", 10) == 4 && ValueOf("40", 10) == 40 && ValueOf("409", 10) == 409;
    assert ValueOf("1", 16) == 1 && ValueOf("10", 16) == 16 && ValueOf("100", 16) == 256;
  }

  lemma DigitsRead(n: nat, base: nat)
    requires Base(base)
    ensures ReadsAs(Digits(n, base), base, n)
  {
    DigitsRoundTrip(n, base);
  }

  lemma IntReads(v: int)
    ensures var t := IntText(v);
            if v < 0 then |t| > 1 && t[0] == '-' && ReadsAs(t[1..], 10, -v) else ReadsAs(t, 10, v)
  {
    if v < 0 {
      DigitsRead(-v, 10);
      assert IntText(v)[1..] == Digits(-v, 10);
    } else {
      DigitsRead(v, 10);
    }
  }

  function Modulus(longness: nat): (m: nat)
    ensures m > 0
  {
    if longness == 1 || longness == 2 then 0x1_0000_0000_0000_0000 else 0x1_0000_0000
  }

  lemma WordMeaning(spec: char, longness: nat, w: nat)
    requires spec != '%' && spec != 's'
    ensures WordText(spec, longness, w).Some? <==> Survives(spec, Modulus(longness), [Word(w)])
    ensures WordText(spec, longness, w).Some? ==>
      Prints(spec, Modulus(longness), [Word(w)], WordText(spec, longness, w).value)
  {
    SignedIs(longness, w);
    hide Digits, IntText, ReadsAs, IntArg, UintArg, TwosComplement, Modulus;
    if spec == 'u' {
      DigitsRead(w % Modulus(longness), 10);
    } else if spec == 'x' || spec == 'X' {
      DigitsRead(w % Modulus(longness), 16);
    } else if spec == 'd' || spec == 'i' {
      IntReads(TwosComplement(w, Modulus(longness)));
    } else if spec == 'p' {
      AddressReads(w);
    }
  }

  lemma AddressReads(w: nat)
    ensures var v := w % TWO64; v != 0 ==>
      var t := "0x" + Digits(v, 16); |t| > 2 && t[..2] == "0x" && ReadsAs(t[2..], 16, v)
  {
    var v := w % TWO64;
    DigitsRead(v, 16);
    var t := "0x" + Digits(v, 16);
    assert t[..2] == "0x" && t[2..] == Digits(v, 16);
  }

  lemma SignedIs(longness: nat, w: nat)
    ensures IntArg(longness, w) == TwosComplement(w, Modulus(longness)) && UintArg(longness, w) == w % Modulus(longness)
  {}

  /** Each conversion, before padding: when the program survives it, what it prints, what it takes. */
  lemma ConversionText(spec: char, longness: nat, args: seq<VaArg>)
    ensures Unpadded(spec, longness, args).Some? <==> Survives(spec, Modulus(longness), args)
    ensures Unpadded(spec, longness, args).Some? ==>
      var (t, rest) := Unpadded(spec, longness, args).value;
      Prints(spec, Modulus(longness), args, t) && rest == if spec == '%' then args else args[1..]
  {
    if spec != '%' && spec != 's' && args != [] && args[0].Word? {
      WordMeaning(spec, longness, args[0].w);
      hide WordText, Modulus, ReadsAs, TwosComplement;
    } else {
      hide WordText, Modulus, ReadsAs, TwosComplement;
    }
  }

  // ---- a conversion in a format

  /** The text at one end of the field, spaces after it or padding before it. */
  predicate FieldOf(out: string, t: string, width: nat, left: bool, pad: char) {
    && |out| == (if |t| > width then |t| else width)
    && if left then t <= out && forall i :: |t| <= i < |out| ==> out[i] == ' '
       else out[|out| - |t|..] == t && forall i :: 0 <= i < |out| - |t| ==> out[i] == pad
  }

  /** The width asked for, if the arguments give one that is not negative. */
  function WidthFor(ms: string, args: seq<VaArg>): Option<nat> {
    if '*' !in ms then Some(ValueOf(DigitsAmong(ms), 10))
    else if args != [] && args[0].Word? && TwosComplement(args[0].w, 0x1_0000_0000) >= 0 then
      Some(TwosComplement(args[0].w, 0x1_0000_0000))
    else None
  }

  function AfterWidth(ms: string, args: seq<VaArg>): seq<VaArg> {
    if '*' in ms && args != [] then args[1..] else args
  }

  /**
   A conversion, on the format string itself: with any modifiers in any order, when the program survives
   it, which arguments it takes, what number or text it prints, and how that is padded.
   */
  lemma ConversionMeaning(ms: string, spec: char, args: seq<VaArg>) returns (t: string)
    requires AllModifiers(ms) && !(spec in "lz-*") && !IsDigit(spec)
    ensures var rest, modulus := AfterWidth(ms, args), Modulus(Longness(ms));
            Render("%" + ms + [spec], args).Some? <==>
              WidthsAgree(ms) && WidthFor(ms, args).Some? && Survives(spec, modulus, rest)
    ensures Render("%" + ms + [spec], args).Some? ==>
      var (out, left) := Render("%" + ms + [spec], args).value;
      var rest := AfterWidth(ms, args);
      && Prints(spec, Modulus(Longness(ms)), rest, t) && left == (if spec == '%' then rest else rest[1..])
      && FieldOf(out, t, WidthFor(ms, args).value, '-' in ms, if PadsWithZero(ms) then '0' else ' ')
  {
    t := "";
    ModifiedMeans(ms);
    RenderOne(ms, spec, args);
    if Modified(ms).Some? { t := FieldMeaning(ms, Modified(ms).value, spec, args); }
    hide *;
  }

  /** The field of a conversion whose modifiers mean what ms says. */
  lemma FieldMeaning(ms: string, mods: Modifiers, spec: char, args: seq<VaArg>) returns (t: string)
    requires Means(mods, ms)
    ensures var rest, modulus := AfterWidth(ms, args), Modulus(Longness(ms));
            Field(spec, mods, args).Some? <==> WidthFor(ms, args).Some? && Survives(spec, modulus, rest)
    ensures Field(spec, mods, args).Some? ==>
      var (out, left) := Field(spec, mods, args).value;
      var rest := AfterWidth(ms, args);
      && Prints(spec, Modulus(Longness(ms)), rest, t) && left == (if spec == '%' then rest else rest[1..])
      && FieldOf(out, t, WidthFor(ms, args).value, '-' in ms, if PadsWithZero(ms) then '0' else ' ')
  {
    t := "";
    var rest := AfterWidth(ms, args);
    FieldWidth(ms, mods, spec, args);
    if WidthFor(ms, args).Some? {
      ConversionText(spec, Longness(ms), rest);
      if Unpadded(spec, Longness(ms), rest).Some? {
        t := Unpadded(spec, Longness(ms), rest).value.0;
        PaddedField(t, WidthFor(ms, args).value, mods);
      }
    }
    hide PadsWithZero, DigitsAmong, Longness, Unpadded, Survives, Prints, Modulus, ValueOf, Field, Padded, FieldOf, WidthFor, AfterWidth;
  }

  lemma FieldWidth(ms: string, mods: Modifiers, spec: char, args: seq<VaArg>)
    requires Means(mods, ms)
    ensures Field(spec, mods, args) ==
              match WidthFor(ms, args) {
                case Some(width) => WithWidth(spec, width, mods, AfterWidth(ms, args))
                case None => None
              }
  {
    hide WithWidth, PadsWithZero, DigitsAmong, Longness, ValueOf;
  }

  lemma PaddedField(t: string, width: nat, mods: Modifiers)
    ensures FieldOf(Padded(t, width, mods), t, width, mods.justifyLeft, mods.paddingChar)
  {
    PaddedLength(t, width, mods);
  }

  /** A format that is one conversion is the field of that conversion. */
  lemma RenderOne(ms: string, spec: char, args: seq<VaArg>)
    requires AllModifiers(ms) && !(spec in "lz-*") && !IsDigit(spec)
    ensures Render("%" + ms + [spec], args) ==
              match Modified(ms) { case Some(mods) => Field(spec, mods, args) case None => None }
  {
    var f := "%" + ms + [spec];
    assert f[0] == '%' && f[1..] == ms + [spec];
    ParseAll([], ms, [spec]);
    assert [] + ms == ms && [spec][1..] == "";
    if Modified(ms).Some? && Field(spec, Modified(ms).value, args).Some? {
      var (text, left) := Field(spec, Modified(ms).value, args).value;
      assert Render("", left) == Some(("", left)) && text + "" == text;
    }
    hide Field, Modified, AllModifiers;
  }
}

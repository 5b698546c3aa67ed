/** What each part of a directive does, stated on the directive as it is written: a percent sign, flags, a width, a
    precision, a length and a letter. */
module FormatLaws {
  import opened FormatInteger
  import opened FormatText
  import opened FormatAlternative
  import opened Numbers

  // ---------------------------------------------------------------- directives as they are written

  /** A width or a precision: left out, in decimal digits, or an asterisk together with its argument. */
  datatype Number = Missing | Written(digits: string) | Starred(n: int)

  datatype Spec = Spec(flags: string, width: Number, precision: Number, length: string, letter: char)

  function NumberText(n: Number): string {
    match n
    case Missing => ""
    case Written(d) => d
    case Starred(_) => "*"
  }

  function NumberArgs(n: Number): seq<Arg> { if n.Starred? then [IntArg(n.n)] else [] }

  function NumberValue(n: Number): int {
    match n
    case Missing => 0
    case Written(d) => PlaceValue(d, 10)
    case Starred(n) => n
  }

  function PrecisionText(p: Number): string { if p.Missing? then "" else "." + NumberText(p) }

  /** What follows the percent sign. */
  function SpecText(s: Spec): string {
    s.flags + (NumberText(s.width) + (PrecisionText(s.precision) + (s.length + [s.letter])))
  }

  /** The arguments for the asterisks, and those that follow. */
  function SpecArgs(s: Spec, args: seq<Arg>): seq<Arg> {
    NumberArgs(s.width) + (NumberArgs(s.precision) + args)
  }

  predicate AllDigits(s: string) { forall k :: 0 <= k < |s| ==> '0' <= s[k] <= '9' }

  predicate NumberOk(n: Number) {
    match n
    case Missing => true
    case Written(d) => AllDigits(d) && 0 <= PlaceValue(d, 10) < TWO32
    case Starred(n) => -0x8000_0000 <= n < 0x8000_0000
  }

  /** A width does not begin with the digit 0, which is a flag; a precision may even be an empty string of digits. */
  predicate SpecOk(s: Spec) {
    && (forall k :: 0 <= k < |s.flags| ==> s.flags[k] in "-0+ #")
    && NumberOk(s.width) && (s.width.Written? ==> s.width.digits != "" && s.width.digits[0] != '0')
    && NumberOk(s.precision)
    && LengthOk(s.length) && s.letter in "diuxXobcsp%"
  }

  predicate LengthOk(length: string) {
    length == "" || length == "h" || length == "hh" || length == "l" || length == "ll" || length == "j"
    || length == "z" || length == "t"
  }

  /** A '-' or a negative width puts the padding behind. */
  predicate PadsBehind(s: Spec) { '-' in s.flags || (s.width.Starred? && s.width.n < 0) }

  function WidthOf(s: Spec): nat {
    var n := NumberValue(s.width);
    if n < 0 then -n else n
  }

  /** A negative precision counts as 0. */
  function PrecisionOf(s: Spec): nat {
    var n := NumberValue(s.precision);
    if n < 0 then 0 else n
  }

  // ---------------------------------------------------------------- what is read from them

  function FlagSet(fl: string): Flags {
    (if '0' in fl then {ZeroPad} else {}) + (if '-' in fl then {Left} else {}) + (if '+' in fl then {Plus} else {})
    + (if ' ' in fl then {Space} else {}) + (if '#' in fl then {Hash} else {})
  }

  lemma {:induction false} FlagsAreRead(fl: string, more: string, f: string, d: Directive)
    requires f == fl + more && (forall k :: 0 <= k < |fl| ==> fl[k] in "-0+ #") && (more == "" || !IsFlag(more[0]))
    ensures FlagsFrom(f, d) == d.(flags := d.flags + FlagSet(fl), rest := more)
    decreases |fl|
  {
    if fl == "" {
      assert f == more;
      assert d.flags + FlagSet(fl) == d.flags;
    } else {
      var d1 := d.(flags := WithFlag(fl[0], d.flags));
      assert f[1..] == fl[1..] + more && f[0] == fl[0];
      FlagsAreRead(fl[1..], more, f[1..], d1);
      OneMoreFlag(fl, d.flags);
    }
  }

  lemma InRest(s: string, c: char)
    requires s != ""
    ensures c in s <==> c == s[0] || c in s[1..]
  {
  }

  lemma FlagSetIs(fl: string, f: Flags)
    requires f == FlagSet(fl)
    ensures (ZeroPad in f <==> '0' in fl) && (Left in f <==> '-' in fl) && (Plus in f <==> '+' in fl)
    ensures (Space in f <==> ' ' in fl) && (Hash in f <==> '#' in fl)
    ensures f <= {ZeroPad, Left, Plus, Space, Hash}
  {
  }

  lemma OneMoreFlag(fl: string, flags: Flags)
    requires fl != "" && fl[0] in "-0+ #"
    ensures WithFlag(fl[0], flags) + FlagSet(fl[1..]) == flags + FlagSet(fl)
  {
    InRest(fl, '0');
    InRest(fl, '-');
    InRest(fl, '+');
    InRest(fl, ' ');
    InRest(fl, '#');
    FlagSetIs(fl, FlagSet(fl));
    FlagSetIs(fl[1..], FlagSet(fl[1..]));
    FlagJoins(fl[0], flags, FlagSet(fl[1..]), FlagSet(fl));
  }

  lemma FlagJoins(c: char, flags: Flags, a: Flags, b: Flags)
    requires c in "-0+ #" && a <= {ZeroPad, Left, Plus, Space, Hash} && b <= {ZeroPad, Left, Plus, Space, Hash}
    requires (ZeroPad in b <==> c == '0' || ZeroPad in a) && (Left in b <==> c == '-' || Left in a)
    requires (Plus in b <==> c == '+' || Plus in a) && (Space in b <==> c == ' ' || Space in a)
    requires Hash in b <==> c == '#' || Hash in a
    ensures WithFlag(c, flags) + a == flags + b
  {
  }

  lemma {:induction false} PlaceValueNonNegative(s: string, base: int)
    requires base > 0
    ensures PlaceValue(s, base) >= 0
  {
    if s != "" { PlaceValueNonNegative(s[..|s| - 1], base); }
  }

  /** Decimal digits of any kind, leading zeros included, are read for what they stand for. */
  lemma {:induction false} DigitsAreRead(d: string, more: string, f: string)
    requires f == d + more && AllDigits(d) && PlaceValue(d, 10) < TWO32
    ensures 0 <= PlaceValue(d, 10) && AtoiFrom(f, 0) == AtoiFrom(more, PlaceValue(d, 10))
    decreases |d|
  {
    PlaceValueNonNegative(d, 10);
    if d == "" {
      assert f == more;
    } else {
      var q, c := d[..|d| - 1], d[|d| - 1];
      PlaceValueNonNegative(q, 10);
      var t := [c] + more;
      assert f == q + t;
      DigitsAreRead(q, t, f);
      DigitIsRead(c, more, PlaceValue(q, 10), t);
    }
  }

  lemma DigitIsRead(c: char, more: string, acc: nat, f: string)
    requires f == [c] + more && '0' <= c <= '9' && acc * 10 + DigitValue(c) < TWO32
    ensures acc < TWO32 && AtoiFrom(f, acc) == AtoiFrom(more, acc * 10 + DigitValue(c))
  {
    assert f[1..] == more;
  }

  lemma WidthIsRead(s: Spec, more: string, d: Directive, va: seq<Arg>)
    requires SpecOk(s) && d.rest == NumberText(s.width) + more && d.va == NumberArgs(s.width) + va && d.width == 0
    requires more != "" && !IsDigit(more[0]) && more[0] != '*'
    ensures WidthFrom(d) == d.(width := WidthOf(s), rest := more, va := va,
              flags := if s.width.Starred? && s.width.n < 0 then d.flags + {Left} else d.flags)
  {
    match s.width
    case Missing => assert d.rest == more && d.va == va;
    case Written(w) => assert d.va == va; DigitsAreRead(w, more, d.rest);
    case Starred(n) => assert d.rest[1..] == more && d.va[1..] == va;
  }

  lemma PrecisionIsRead(s: Spec, more: string, d: Directive, va: seq<Arg>)
    requires SpecOk(s) && d.rest == PrecisionText(s.precision) + more && d.va == NumberArgs(s.precision) + va
    requires more != "" && !IsDigit(more[0]) && more[0] != '*' && more[0] != '.' && d.precision == 0
    ensures PrecisionFrom(d) == d.(precision := PrecisionOf(s), rest := more, va := va,
              flags := if s.precision.Missing? then d.flags else d.flags + {Precision})
  {
    match s.precision
    case Missing => assert d.rest == more && d.va == va;
    case Written(w) =>
      assert d.va == va && d.rest == ['.'] + (w + more);
      DigitsAfterPoint(w, more, d);
    case Starred(n) => assert d.rest[1..][1..] == more && d.va[1..] == va;
  }

  lemma DigitsAfterPoint(w: string, more: string, d: Directive)
    requires d.rest == ['.'] + (w + more) && AllDigits(w) && 0 <= PlaceValue(w, 10) < TWO32
    requires more != "" && !IsDigit(more[0]) && more[0] != '*' && d.precision == 0
    ensures PrecisionFrom(d) == d.(precision := PlaceValue(w, 10), rest := more, flags := d.flags + {Precision})
  {
    assert d.rest[1..] == w + more;
    DigitsAreRead(w, more, w + more);
    assert w == "" ==> w + more == more;
  }

  function LengthFlags(length: string): Flags {
    if length == "h" then {Short} else if length == "hh" then {Short, Char}
    else if length == "l" || length == "z" || length == "t" then {Long}
    else if length == "ll" then {Long, LongLong} else if length == "j" then {LongLong} else {}
  }

  lemma OneLetter(f: string, a: char, rest: string)
    requires f == [a] + rest && rest != ""
    ensures f != "" && f[0] == a && f[1..] == rest && f[1..][0] == rest[0]
  {
  }

  lemma TwoLetters(f: string, a: char, b: char, rest: string)
    requires f == [a, b] + rest
    ensures |f| >= 2 && f[0] == a && f[1..][0] == b && f[2..] == rest
  {
  }

  lemma LengthIsRead(length: string, rest: string, d: Directive)
    requires LengthOk(length) && d.rest == length + rest && rest != "" && rest[0] in "diuxXobcsp%"
    ensures LengthFrom(d) == d.(rest := rest, flags := d.flags + LengthFlags(length))
  {
    if length == "" {
      assert d.rest == rest && d.flags + {} == d.flags;
    } else if |length| == 1 {
      OneIsRead(length, rest, d);
    } else {
      TwoAreRead(length, rest, d);
    }
  }

  lemma OneIsRead(length: string, rest: string, d: Directive)
    requires LengthOk(length) && |length| == 1 && d.rest == length + rest && rest != "" && rest[0] in "diuxXobcsp%"
    ensures LengthFrom(d) == d.(rest := rest, flags := d.flags + LengthFlags(length))
  {
    OneLetter(d.rest, length[0], rest);
  }

  lemma TwoAreRead(length: string, rest: string, d: Directive)
    requires LengthOk(length) && |length| == 2 && d.rest == length + rest
    ensures LengthFrom(d) == d.(rest := rest, flags := d.flags + LengthFlags(length))
  {
    TwoLetters(d.rest, length[0], length[1], rest);
  }

  /** All that a written directive says. */
  function Said(s: Spec): Flags {
    FlagSet(s.flags) + (if PadsBehind(s) then {Left} else {}) + (if s.precision.Missing? then {} else {Precision})
    + LengthFlags(s.length)
  }

  /** The flags that have been read are those that were written. */
  predicate SaidBy(s: Spec, said: Flags) {
    && (ZeroPad in said <==> '0' in s.flags) && (Left in said <==> PadsBehind(s))
    && (Plus in said <==> '+' in s.flags) && (Space in said <==> ' ' in s.flags) && (Hash in said <==> '#' in s.flags)
    && Upper !in said && Pointer !in said && (Precision in said <==> !s.precision.Missing?)
    && (LongLong in said <==> s.length == "ll" || s.length == "j")
    && (Long in said <==> s.length == "ll" || s.length == "l" || s.length == "z" || s.length == "t")
    && (Char in said <==> s.length == "hh") && (Short in said <==> s.length == "hh" || s.length == "h")
  }

  /** The directive d is what has been read of s, with those arguments to follow. */
  predicate IsRead(s: Spec, d: Directive, args: seq<Arg>) {
    SpecOk(s) && SaidBy(s, d.flags) && d.width == WidthOf(s) && d.precision == PrecisionOf(s) && d.va == args
  }

  lemma SaidIsThis(s: Spec, said: Flags)
    requires SpecOk(s) && said == Said(s)
    ensures SaidBy(s, said)
  {
    var f, l := FlagSet(s.flags), LengthFlags(s.length);
    var g := if PadsBehind(s) then {Left} else {};
    var h := if s.precision.Missing? then {} else {Precision};
    FlagSetIs(s.flags, f);
    LengthFlagsAre(s.length, l);
    JoinedIs(said, f, g, h, l);
  }

  lemma JoinedIs(all: Flags, f: Flags, g: Flags, h: Flags, l: Flags)
    requires all == f + g + h + l && f <= {ZeroPad, Left, Plus, Space, Hash} && g <= {Left} && h <= {Precision}
    requires l <= {LongLong, Long, Char, Short}
    ensures (ZeroPad in all <==> ZeroPad in f) && (Left in all <==> Left in f || Left in g)
    ensures Plus in all <==> Plus in f
    ensures (Space in all <==> Space in f) && (Hash in all <==> Hash in f) && Upper !in all && Pointer !in all
    ensures (Precision in all <==> Precision in h) && (LongLong in all <==> LongLong in l)
    ensures Long in all <==> Long in l
    ensures (Char in all <==> Char in l) && (Short in all <==> Short in l)
  {
  }

  lemma LengthFlagsAre(length: string, l: Flags)
    requires l == LengthFlags(length)
    ensures LongLong in l <==> length == "ll" || length == "j"
    ensures Long in l <==> length == "ll" || length == "l" || length == "z" || length == "t"
    ensures (Char in l <==> length == "hh") && (Short in l <==> length == "hh" || length == "h")
    ensures l <= {LongLong, Long, Char, Short}
  {
  }

  lemma SpecIsRead(s: Spec, f: string, more: string, args: seq<Arg>) returns (d: Directive)
    requires SpecOk(s) && f == SpecText(s) + more
    ensures d == Parse(f, SpecArgs(s, args)) && IsRead(s, d, args) && d.rest == [s.letter] + more
  {
    var t3 := s.length + ([s.letter] + more);
    var t2 := PrecisionText(s.precision) + t3;
    var t1 := NumberText(s.width) + t2;
    assert f == s.flags + t1;
    StepsRead(s, f, t1, t2, t3, SpecArgs(s, args), NumberArgs(s.precision) + args, args, [s.letter] + more);
    d := Parse(f, SpecArgs(s, args));
    SaidIsThis(s, d.flags);
  }

  lemma StepsRead(s: Spec, f: string, t1: string, t2: string, t3: string, va: seq<Arg>, a1: seq<Arg>, a2: seq<Arg>,
      rest: string)
    requires SpecOk(s) && f == s.flags + t1 && t1 == NumberText(s.width) + t2 && t2 == PrecisionText(s.precision) + t3
    requires t3 == s.length + rest && rest != "" && rest[0] == s.letter
    requires va == NumberArgs(s.width) + a1 && a1 == NumberArgs(s.precision) + a2
    ensures Parse(f, va) == Directive(Said(s), WidthOf(s), PrecisionOf(s), rest, a2)
  {
    HeadsAre(s, t1, t2, t3, rest);
    var d0 := Directive({}, 0, 0, f, va);
    FlagsAreRead(s.flags, t1, f, d0);
    var d1 := FlagsFrom(f, d0);
    WidthIsRead(s, t2, d1, a1);
    PrecisionIsRead(s, t3, WidthFrom(d1), a2);
    LengthIsRead(s.length, rest, PrecisionFrom(WidthFrom(d1)));
    SaidIs(s, Parse(f, va).flags);
  }

  /** None of the parts begins with what could still belong to the one before. */
  lemma HeadsAre(s: Spec, t1: string, t2: string, t3: string, rest: string)
    requires SpecOk(s) && t1 == NumberText(s.width) + t2 && t2 == PrecisionText(s.precision) + t3
    requires t3 == s.length + rest && rest != "" && rest[0] == s.letter
    ensures t3 != "" && !IsDigit(t3[0]) && t3[0] != '*' && t3[0] != '.' && !IsFlag(t3[0])
    ensures t2 != "" && !IsDigit(t2[0]) && t2[0] != '*' && !IsFlag(t2[0])
    ensures t1 != "" && !IsFlag(t1[0])
  {
    assert s.length == "" ==> t3 == rest;
    assert s.precision.Missing? ==> t2 == t3;
    assert s.width.Missing? ==> t1 == t2;
  }

  lemma SaidIs(s: Spec, flags: Flags)
    requires flags == {} + FlagSet(s.flags) + (if s.width.Starred? && s.width.n < 0 then {Left} else {})
                      + (if s.precision.Missing? then {} else {Precision}) + LengthFlags(s.length)
    ensures flags == Said(s)
  {
  }

  /** A directive in a format is replaced by its field, and leaves the rest of the format to the rest of the
      arguments. */
  lemma SpecIsRendered(s: Spec, f: string, more: string, args: seq<Arg>, rest: seq<Arg>) returns (d: Directive)
    requires SpecOk(s) && f == "%" + (SpecText(s) + more) && ArgsAfter(s.letter, args) == rest && Supported(more, rest)
    ensures IsRead(s, d, args) && Supported(f, SpecArgs(s, args))
    ensures Render(f, SpecArgs(s, args)) == Field(s.letter, d) + Render(more, rest)
  {
    assert f[1..] == SpecText(s) + more;
    d := SpecIsRead(s, f[1..], more, args);
    DirectiveIsRendered(f, SpecArgs(s, args), d, s.letter, more);
  }

  lemma DirectiveIsRendered(f: string, va: seq<Arg>, d: Directive, letter: char, more: string)
    requires f != "" && f[0] == '%' && Parse(f[1..], va) == d && d.rest == [letter] + more
    requires letter != '\0' && !IsFloat(letter) && Supported(more, ArgsAfter(letter, d.va))
    ensures Supported(f, va) && Render(f, va) == Field(letter, d) + Render(more, ArgsAfter(letter, d.va))
  {
    assert d.rest[1..] == more;
  }

  // ---------------------------------------------------------------- integers

  predicate IsDigitOf(letter: char, c: char) {
    if letter == 'x' then '0' <= c <= '9' || 'a' <= c <= 'f'
    else if letter == 'X' then '0' <= c <= '9' || 'A' <= c <= 'F'
    else if letter == 'o' then '0' <= c <= '7'
    else if letter == 'b' then '0' <= c <= '1'
    else '0' <= c <= '9'
  }

  function Radix(letter: char): int {
    match letter
    case 'b' => 2
    case 'o' => 8
    case 'x' => 16
    case 'X' => 16
    case _ => 10
  }

  /** The text has the digits of the letter, no zero in front, and stands for n. Zero is the digit 0, but with a
      precision it has no digits. */
  predicate IsNumeral(letter: char, text: string, n: nat, precise: bool) {
    if n == 0 then text == if precise then "" else "0"
    else
      && text != "" && text[0] != '0' && (forall k :: 0 <= k < |text| ==> IsDigitOf(letter, text[k]))
      && PlaceValue(text, Radix(letter)) == n
  }

  predicate TakesSign(letter: char) { letter == 'd' || letter == 'i' }

  function SizeOf(length: string): int {
    if length == "hh" then 0x100 else if length == "h" then 0x1_0000
    else if length == "ll" || length == "j" then 0x1_0000_0000_0000_0000 else 0x1_0000_0000
  }

  /** v is what a type of the given length makes of the argument a. */
  predicate IsArgument(s: Spec, a: int, v: int) {
    var size := SizeOf(s.length);
    && (a - v) % size == 0
    && if TakesSign(s.letter) then -size <= 2 * v < size else 0 <= v < size
  }

  /** The sign, or the mark of the alternative form. */
  function PrefixShown(s: Spec, v: int): string {
    if TakesSign(s.letter) then
      if v < 0 then "-" else if '+' in s.flags then "+" else if ' ' in s.flags then " " else ""
    else if '#' in s.flags && v != 0 && s.letter == 'x' then "0x"
    else if '#' in s.flags && v != 0 && s.letter == 'X' then "0X"
    else ""
  }

  /** Zeros fill the field: no padding behind, and no precision. */
  predicate FillsWithZeros(s: Spec) { '0' in s.flags && !PadsBehind(s) && s.precision.Missing? }

  /** How many digits are shown, with the zeros before them. */
  function PlacesShown(s: Spec, v: int, digits: string): nat {
    var n := Max(|digits|, Max(PrecisionOf(s), if FillsWithZeros(s) then WidthOf(s) - |PrefixShown(s, v)| else 0));
    if '#' in s.flags && s.letter == 'o' && (digits == "" || digits[0] != '0') then Max(n, |digits| + 1) else n
  }

  /** What section 7.21.6.1 of ISO/IEC 9899:2011 asks for. */
  function IntegerShown(s: Spec, v: int, digits: string): string {
    InWidth(s, PrefixShown(s, v) + (Fill('0', PlacesShown(s, v, digits) - |digits|) + digits))
  }

  function InWidth(s: Spec, core: string): string {
    if PadsBehind(s) then core + Fill(' ', WidthOf(s) - |core|) else Fill(' ', WidthOf(s) - |core|) + core
  }

  /** The prefix and the places fit 32 characters, or the padding makes good for a blank that got lost. */
  predicate IntegerFits(s: Spec, v: int, digits: string) {
    var prefix, places := PrefixShown(s, v), PlacesShown(s, v, digits);
    || |prefix| + places <= 32
    || (prefix == " " && places == 32 && WidthOf(s) > 32 && !PadsBehind(s) && !FillsWithZeros(s))
  }

  /** There is only one numeral. */
  lemma {:induction false} NumeralIsUnique(letter: char, text: string, base: nat, upper: bool)
    requires base == Radix(letter) && (upper <==> letter == 'X')
    requires (forall k :: 0 <= k < |text| ==> IsDigitOf(letter, text[k])) && (text != "" ==> text[0] != '0')
    ensures PlaceValue(text, base) >= 0 && (PlaceValue(text, base) == 0 <==> text == "")
    ensures Numeral(PlaceValue(text, base), base, upper) == text
    decreases |text|
  {
    if text != "" {
      var q, c := text[..|text| - 1], text[|text| - 1];
      NumeralIsUnique(letter, q, base, upper);
      var n, d := PlaceValue(q, base), DigitValue(c);
      assert 0 <= d < base && DigitChar(d, upper) == c;
      assert d == 0 ==> q != "";
      PlacesSplit(n, d, base);
      assert text == q + [c];
    }
  }

  lemma PlacesSplit(n: nat, d: nat, base: nat)
    requires d < base
    ensures (n * base + d) / base == n && (n * base + d) % base == d
  {
    var q, r := (n * base + d) / base, (n * base + d) % base;
    assert n * base + d == q * base + r;
    assert q < n ==> q * base <= (n - 1) * base;
    assert q > n ==> q * base >= (n + 1) * base;
  }

  lemma NumeralIs(letter: char, text: string, n: nat, base: nat, flags: Flags)
    requires base == Radix(letter) && (Upper in flags <==> letter == 'X')
    requires IsNumeral(letter, text, n, Precision in flags)
    ensures text == Digits(n, base, flags)
  {
    if n != 0 { NumeralIsUnique(letter, text, base, letter == 'X'); }
  }

  lemma ArgumentIsRead(s: Spec, said: Flags, flags: Flags, a: int, v: int, rest: seq<Arg>)
    requires SaidBy(s, said) && SpecOk(s) && IsArgument(s, a, v) && flags == Normal(s.letter, said)
    ensures v == ValueOf(s.letter, flags, [IntArg(a)] + rest)
  {
    assert IntOf([IntArg(a)] + rest) == a;
    NormalKeepsLength(s.letter, said);
    var bits := BitsOf(flags);
    assert SizeOf(s.length)
      == if bits == 8 then 0x100 else if bits == 16 then 0x1_0000 else if bits == 32 then TWO32 else TWO64;
    ReadInBits(a, v, bits, SizeOf(s.length));
  }

  lemma ReadInBits(a: int, v: int, bits: int, size: int)
    requires bits == 8 || bits == 16 || bits == 32 || bits == 64
    requires size == if bits == 8 then 0x100 else if bits == 16 then 0x1_0000 else if bits == 32 then TWO32 else TWO64
    requires (a - v) % size == 0
    ensures 0 <= v < size ==> Unsigned(a, bits) == v
    ensures -size <= 2 * v < size ==> Signed(a, bits) == v
  {
    var k := (a - v) / size;
    assert a == k * size + v == (k - 1) * size + (v + size);
    if 0 <= v < size { RemainderIs(a, k, v, size); }
    if -size <= v < 0 { RemainderIs(a, k - 1, v + size, size); }
  }

  lemma RemainderIs(a: int, k: int, v: int, size: int)
    requires 0 <= v < size && a == k * size + v
    ensures a % size == v
  {
    var q, r := a / size, a % size;
    assert a == q * size + r;
    assert q < k ==> q * size <= (k - 1) * size;
    assert q > k ==> q * size >= (k + 1) * size;
  }

  lemma NormalKeepsLength(c: char, flags: Flags)
    ensures BitsOf(Normal(c, flags)) == BitsOf(flags)
  {
  }

  lemma SaidToIntegers(s: Spec, said: Flags, flags: Flags)
    requires SaidBy(s, said) && IsInteger(s.letter) && flags == Normal(s.letter, said)
    ensures Says(s, flags)
  {
    NormalIs(s.letter, said, flags);
  }

  lemma NormalIs(c: char, said: Flags, flags: Flags)
    requires flags == Normal(c, said) && IsInteger(c)
    ensures (Upper in flags <==> Upper in said || c == 'X') && (Left in flags <==> Left in said)
    ensures (Plus in flags <==> TakesSign(c) && Plus in said) && (Space in flags <==> TakesSign(c) && Space in said)
    ensures (Hash in flags <==> Hash in said && Radix(c) != 10) && (Pointer in flags <==> Pointer in said)
    ensures (Precision in flags <==> Precision in said)
    ensures (ZeroPad in flags <==> ZeroPad in said && Precision !in said)
  {
  }

  /** The normalized flags say what the written directive does. */
  predicate Says(s: Spec, flags: Flags) {
    && (Upper in flags <==> s.letter == 'X') && (Left in flags <==> PadsBehind(s)) && Pointer !in flags
    && (Plus in flags <==> TakesSign(s.letter) && '+' in s.flags)
    && (Space in flags <==> TakesSign(s.letter) && ' ' in s.flags)
    && (Hash in flags <==> '#' in s.flags && Radix(s.letter) != 10)
    && (Precision in flags <==> !s.precision.Missing?) && (s.precision.Missing? ==> PrecisionOf(s) == 0)
    && (ZeroPad in flags && Left !in flags <==> FillsWithZeros(s)) && !(Precision in flags && ZeroPad in flags)
  }

  lemma InWidthIs(s: Spec, flags: Flags, core: string)
    requires Says(s, flags) && (FillsWithZeros(s) ==> WidthOf(s) <= |core|)
    ensures InField(core, WidthOf(s), flags) == InWidth(s, core)
  {
    if FillsWithZeros(s) { assert Fill(' ', WidthOf(s) - |core|) + core == core; }
  }

  lemma WithoutMark(s: Spec, flags: Flags, v: int, digits: string)
    requires SpecOk(s) && s.letter in "diuxXo" && Says(s, flags) && Hash !in flags && (v < 0 ==> TakesSign(s.letter))
    ensures Plain(PrecisionOf(s), flags)
    ensures Standard(digits, v < 0, PrecisionOf(s), WidthOf(s), flags) == IntegerShown(s, v, digits)
    ensures IntegerFits(s, v, digits) <==>
            || Fits(|digits|, v < 0, PrecisionOf(s), WidthOf(s), flags)
            || SpaceRefilled(|digits|, v < 0, PrecisionOf(s), WidthOf(s), flags)
  {
    SignAndPlaces(s, flags, v, digits);
    InWidthIs(s, flags, Whole(digits, PrefixShown(s, v), PlacesShown(s, v, digits)));
  }

  lemma SignAndPlaces(s: Spec, flags: Flags, v: int, digits: string)
    requires s.letter in "diuxXo" && Says(s, flags) && Hash !in flags && (v < 0 ==> TakesSign(s.letter))
    ensures Sign(v < 0, flags) == PrefixShown(s, v)
    ensures Places(|digits|, |Sign(v < 0, flags)|, PrecisionOf(s), WidthOf(s), flags) == PlacesShown(s, v, digits)
    ensures FillsWithZeros(s) ==> WidthOf(s) <= |Whole(digits, PrefixShown(s, v), PlacesShown(s, v, digits))|
  {
  }

  lemma WithMark(s: Spec, flags: Flags, v: nat, digits: string)
    requires SpecOk(s) && (s.letter == 'x' || s.letter == 'X' || s.letter == 'o') && Says(s, flags) && Hash in flags
    requires IsNumeral(s.letter, digits, v, Precision in flags) && digits == Digits(v, Radix(s.letter), flags)
    ensures Alternate(v, Radix(s.letter), PrecisionOf(s), WidthOf(s), flags) == IntegerShown(s, v, digits)
  {
    MarkAndPlaces(s, flags, v, digits);
    InWidthIs(s, flags, Whole(digits, PrefixShown(s, v), PlacesShown(s, v, digits)));
  }

  lemma MarkFits(s: Spec, flags: Flags, v: nat, digits: string)
    requires (s.letter == 'x' || s.letter == 'X' || s.letter == 'o') && Says(s, flags) && Hash in flags
    requires IsNumeral(s.letter, digits, v, Precision in flags) && digits == Digits(v, Radix(s.letter), flags)
    ensures Alternative(PrecisionOf(s), flags)
    ensures IntegerFits(s, v, digits) <==> AlternateFits(v, Radix(s.letter), PrecisionOf(s), WidthOf(s), flags)
  {
    MarkAndPlaces(s, flags, v, digits);
  }

  lemma MarkAndPlaces(s: Spec, flags: Flags, v: nat, digits: string)
    requires (s.letter == 'x' || s.letter == 'X' || s.letter == 'o') && Says(s, flags) && Hash in flags
    requires IsNumeral(s.letter, digits, v, Precision in flags)
    ensures Prefix(v, Radix(s.letter), flags) == PrefixShown(s, v)
    ensures PlacesOf(digits, v, Radix(s.letter), PrecisionOf(s), WidthOf(s), flags) == PlacesShown(s, v, digits)
    ensures FillsWithZeros(s) ==> WidthOf(s) <= |Whole(digits, PrefixShown(s, v), PlacesShown(s, v, digits))|
  {
  }

  /** An integer directive shows the one numeral of its argument, with sign, zeros and padding as its flags, width and
      precision ask for, if and only if that fits. */
  lemma IntegerIsShown(s: Spec, a: int, v: int, digits: string, f: string, more: string, rest: seq<Arg>)
    requires SpecOk(s) && s.letter in "diuxXo" && IsArgument(s, a, v)
    requires IsNumeral(s.letter, digits, if v < 0 then -v else v, !s.precision.Missing?)
    requires f == "%" + (SpecText(s) + more) && Supported(more, rest)
    ensures Supported(f, SpecArgs(s, [IntArg(a)] + rest))
    ensures Render(f, SpecArgs(s, [IntArg(a)] + rest)) == IntegerShown(s, v, digits) + Render(more, rest)
            <==> IntegerFits(s, v, digits)
  {
    var args := [IntArg(a)] + rest;
    var d := SpecIsRendered(s, f, more, args, rest);
    IntegerFieldIs(s, a, v, digits, d, rest);
    SameEnd(Field(s.letter, d), IntegerShown(s, v, digits), Render(more, rest));
  }

  lemma SameEnd(a: string, b: string, end: string)
    ensures a + end == b + end <==> a == b
  {
    if a + end == b + end {
      assert a == (a + end)[..|a|] && b == (b + end)[..|b|];
    }
  }

  lemma IntegerFieldIs(s: Spec, a: int, v: int, digits: string, d: Directive, rest: seq<Arg>)
    requires IsRead(s, d, [IntArg(a)] + rest) && s.letter in "diuxXo" && IsArgument(s, a, v)
    requires IsNumeral(s.letter, digits, if v < 0 then -v else v, !s.precision.Missing?)
    ensures Field(s.letter, d) == IntegerShown(s, v, digits) <==> IntegerFits(s, v, digits)
  {
    var flags := Normal(s.letter, d.flags);
    SaidToIntegers(s, d.flags, flags);
    ArgumentIsRead(s, d.flags, flags, a, v, rest);
    var n := Magnitude(v);
    NumeralIs(s.letter, digits, n, Radix(s.letter), flags);
    assert BaseOf(s.letter) == Radix(s.letter);
    if Hash in flags {
      WithMark(s, flags, v, digits);
      MarkFits(s, flags, v, digits);
      AlternativeIsStandard(n, Radix(s.letter), PrecisionOf(s), WidthOf(s), flags);
    } else {
      WithoutMark(s, flags, v, digits);
      IntegerIsStandard(n, Radix(s.letter), v < 0, PrecisionOf(s), WidthOf(s), flags);
    }
  }

  /** Nothing but a letter: the numeral, and a minus sign before those of negative numbers. */
  lemma BareInteger(s: Spec, a: int, v: int, digits: string, more: string, rest: seq<Arg>)
    requires Bare(s) && s.letter in "diuxXo" && IsArgument(s, a, v)
    requires IsNumeral(s.letter, digits, if v < 0 then -v else v, false) && Supported(more, rest)
    ensures Supported(['%', s.letter] + more, [IntArg(a)] + rest)
    ensures Render(['%', s.letter] + more, [IntArg(a)] + rest)
            == (if v < 0 then "-" else "") + digits + Render(more, rest)
  {
    var f := ['%', s.letter] + more;
    var args := [IntArg(a)] + rest;
    BareText(s, f, more, args);
    BareFits(s, v, digits);
    IntegerIsShown(s, a, v, digits, f, more, rest);
  }

  predicate Bare(s: Spec) { s.flags == "" && s.width.Missing? && s.precision.Missing? && s.length == "" }

  lemma BareText(s: Spec, f: string, more: string, args: seq<Arg>)
    requires Bare(s) && f == ['%', s.letter] + more
    ensures SpecArgs(s, args) == args && f == "%" + (SpecText(s) + more)
  {
    assert SpecText(s) == [s.letter];
  }

  lemma BareFits(s: Spec, v: int, digits: string)
    requires Bare(s) && s.letter in "diuxXo" && -TWO64 < v < TWO64 && (v < 0 ==> TakesSign(s.letter))
    requires IsNumeral(s.letter, digits, if v < 0 then -v else v, false)
    ensures IntegerFits(s, v, digits) && IntegerShown(s, v, digits) == (if v < 0 then "-" else "") + digits
  {
    DigitsAreFew(s.letter, digits, if v < 0 then -v else v, if s.letter == 'X' then {Upper} else {});
    var prefix := PrefixShown(s, v);
    assert prefix == if v < 0 then "-" else "";
    assert PlacesShown(s, v, digits) == |digits|;
    assert Fill('0', 0) + digits == digits && Fill(' ', -|prefix + digits|) + (prefix + digits) == prefix + digits;
  }

  lemma DigitsAreFew(letter: char, digits: string, n: nat, flags: Flags)
    requires letter in "diuxXo" && n < TWO64 && IsNumeral(letter, digits, n, Precision in flags)
    requires Upper in flags <==> letter == 'X'
    ensures |digits| <= 22
  {
    NumeralIs(letter, digits, n, Radix(letter), flags);
    AllDigitsFit(n, Radix(letter), letter == 'X');
  }

  // ---------------------------------------------------------------- negative precisions

  /** The standard takes a negative precision as if none were given, which the code does not. */
  function Omitted(s: Spec): Spec { s.(precision := Missing) }

  /** A zero keeps its digit in octal with '#' only. */
  predicate DigitKept(s: Spec, v: int) { v != 0 || ('#' in s.flags && s.letter == 'o') }

  /** With a negative precision what is shown is what the standard asks for if and only if the digits of a zero are not
      lost by it, and there are no places that zeros would have had to fill. */
  lemma NegativePrecision(s: Spec, v: int, digits: string, standard: string)
    requires SpecOk(s) && s.letter in "diuxXo" && s.precision.Starred? && s.precision.n < 0
    requires IsNumeral(s.letter, digits, if v < 0 then -v else v, true)
    requires IsNumeral(s.letter, standard, if v < 0 then -v else v, false)
    ensures IntegerShown(s, v, digits) == IntegerShown(Omitted(s), v, standard) <==>
            && DigitKept(s, v)
            && (FillsWithZeros(Omitted(s)) ==> WidthOf(s) <= |PrefixShown(s, v)| + PlacesShown(s, v, digits))
  {
    if v != 0 { OnlyOne(s.letter, digits, standard, if v < 0 then -v else v); }
    if DigitKept(s, v) { NegativeKept(s, v, digits, standard); } else { NegativeLost(s, v, digits, standard); }
  }

  lemma NegativeLost(s: Spec, v: int, digits: string, standard: string)
    requires s.letter in "diuxXo" && s.precision.Starred? && s.precision.n < 0 && !DigitKept(s, v)
    requires digits == "" && standard == "0"
    ensures IntegerShown(s, v, digits) != IntegerShown(Omitted(s), v, standard)
  {
    var o := Omitted(s);
    assert PrefixShown(o, v) == PrefixShown(s, v) && PlacesShown(s, v, digits) == 0;
    LostZero(s, o, PrefixShown(s, v), PlacesShown(o, v, standard));
  }

  lemma NegativeKept(s: Spec, v: int, digits: string, standard: string)
    requires s.letter in "diuxXo" && s.precision.Starred? && s.precision.n < 0 && DigitKept(s, v)
    requires if v == 0 then digits == "" && standard == "0" else digits == standard && digits != "" && digits[0] != '0'
    ensures IntegerShown(s, v, digits) == IntegerShown(Omitted(s), v, standard) <==>
            (FillsWithZeros(Omitted(s)) ==> WidthOf(s) <= |PrefixShown(s, v)| + PlacesShown(s, v, digits))
  {
    var o := Omitted(s);
    var prefix, n := PrefixShown(s, v), PlacesShown(s, v, digits);
    assert PrefixShown(o, v) == prefix;
    KeptPlaces(s, v, digits, standard);
    if FillsWithZeros(o) && WidthOf(s) > |prefix| + n {
      ZerosShow(s, o, prefix, Fill('0', n - |digits|) + digits, standard);
    }
  }

  lemma LostZero(s: Spec, o: Spec, prefix: string, places: nat)
    requires WidthOf(o) == WidthOf(s) && (PadsBehind(o) <==> PadsBehind(s)) && places > 0
    requires forall k :: 0 <= k < |prefix| ==> prefix[k] != '0'
    ensures InWidth(s, prefix + (Fill('0', 0) + "")) != InWidth(o, prefix + (Fill('0', places - 1) + "0"))
  {
    var core := prefix + (Fill('0', places - 1) + "0");
    var a, b := InWidth(s, prefix + (Fill('0', 0) + "")), InWidth(o, core);
    if |a| == |b| {
      if PadsBehind(s) {
        assert b[|core| - 1] == core[|core| - 1] == '0';
        assert a[|core| - 1] == ' ';
      } else {
        assert b[|b| - 1] == '0';
        assert a[|a| - 1] != '0';
      }
    }
  }

  lemma KeptPlaces(s: Spec, v: int, digits: string, standard: string)
    requires s.letter in "diuxXo" && s.precision.Starred? && s.precision.n < 0 && DigitKept(s, v)
    requires if v == 0 then digits == "" && standard == "0" else digits == standard && digits != "" && digits[0] != '0'
    ensures var o, n := Omitted(s), PlacesShown(s, v, digits);
            && |standard| <= n && Fill('0', n - |digits|) + digits == Fill('0', n - |standard|) + standard
            && PlacesShown(o, v, standard)
               == if FillsWithZeros(o) then Max(n, WidthOf(s) - |PrefixShown(s, v)|) else n
  {
  }

  /** The padding of the one and the zeros of the other. */
  lemma ZerosShow(s: Spec, o: Spec, prefix: string, core: string, standard: string)
    requires !PadsBehind(s) && !PadsBehind(o) && WidthOf(o) == WidthOf(s) && |prefix| + |core| < WidthOf(s)
    requires |standard| <= |core| && (|prefix| > 1 ==> prefix[0] != ' ')
    ensures InWidth(s, prefix + core)
            != InWidth(o, prefix + (Fill('0', WidthOf(s) - |prefix| - |standard|) + standard))
  {
    var whole := prefix + (Fill('0', WidthOf(s) - |prefix| - |standard|) + standard);
    var a, b := InWidth(s, prefix + core), InWidth(o, whole);
    assert b == whole && b[|prefix|] == '0' && a[0] == ' ';
    if prefix != "" && prefix[0] == ' ' {
      assert a[1] == ' ' && |prefix| == 1;
    } else if prefix != "" {
      assert b[0] == prefix[0];
    }
  }

  lemma OnlyOne(letter: char, a: string, b: string, n: nat)
    requires letter in "diuxXo" && n != 0 && IsNumeral(letter, a, n, true) && IsNumeral(letter, b, n, false)
    ensures a == b
  {
    NumeralIsUnique(letter, a, Radix(letter), letter == 'X');
    NumeralIsUnique(letter, b, Radix(letter), letter == 'X');
  }

  // ---------------------------------------------------------------- other conversions

  /** A string is cut to the precision, if one is given, and padded to the width. */
  lemma StringIsShown(s: Spec, t: string, f: string, more: string, rest: seq<Arg>)
    requires SpecOk(s) && s.letter == 's' && f == "%" + (SpecText(s) + more) && Supported(more, rest)
    ensures var shown := if s.precision.Missing? || |t| <= PrecisionOf(s) then t else t[..PrecisionOf(s)];
            && Supported(f, SpecArgs(s, [StrArg(t)] + rest))
            && Render(f, SpecArgs(s, [StrArg(t)] + rest)) == InWidth(s, shown) + Render(more, rest)
  {
    var args := [StrArg(t)] + rest;
    var d := SpecIsRendered(s, f, more, args, rest);
    StringFieldIs(s, t, d, rest);
  }

  lemma StringFieldIs(s: Spec, t: string, d: Directive, rest: seq<Arg>)
    requires IsRead(s, d, [StrArg(t)] + rest)
    ensures Field('s', d)
            == InWidth(s, if s.precision.Missing? || |t| <= PrecisionOf(s) then t else t[..PrecisionOf(s)])
  {
    assert t[..|t|] == t;
  }

  /** A character is the low byte of its argument, padded to the width. */
  lemma CharIsShown(s: Spec, code: int, a: int, f: string, more: string, rest: seq<Arg>)
    requires SpecOk(s) && s.letter == 'c' && f == "%" + (SpecText(s) + more) && Supported(more, rest)
    requires 0 <= code < 256 && (a - code) % 256 == 0
    ensures Supported(f, SpecArgs(s, [IntArg(a)] + rest))
    ensures Render(f, SpecArgs(s, [IntArg(a)] + rest)) == InWidth(s, [code as char]) + Render(more, rest)
  {
    var args := [IntArg(a)] + rest;
    var d := SpecIsRendered(s, f, more, args, rest);
    CharFieldIs(s, code, a, d, rest);
  }

  lemma CharFieldIs(s: Spec, code: int, a: int, d: Directive, rest: seq<Arg>)
    requires IsRead(s, d, [IntArg(a)] + rest) && 0 <= code < 256 && (a - code) % 256 == 0
    ensures Field('c', d) == InWidth(s, [code as char])
  {
    RemainderIs(a, (a - code) / 256, code, 256);
  }

  /** Two percent signs are one, and take no argument. */
  lemma PercentIsShown(s: Spec, f: string, more: string, rest: seq<Arg>)
    requires SpecOk(s) && s.letter == '%' && f == "%" + (SpecText(s) + more) && Supported(more, rest)
    ensures Supported(f, SpecArgs(s, rest))
    ensures Render(f, SpecArgs(s, rest)) == "%" + Render(more, rest)
  {
    var d := SpecIsRendered(s, f, more, rest, rest);
  }

  // ---------------------------------------------------------------- binary numbers and pointers

  lemma QuotientIsBelow(value: nat, base: nat, p: nat, q: nat)
    requires base > 0 && value < base * p && q == value / base
    ensures q < p
  {
    assert value == base * q + value % base;
    assert q >= p ==> base * q >= base * p;
  }

  lemma OneDigitMore(value: nat, base: nat, upper: bool, q: nat)
    requires 2 <= base <= 16 && value != 0 && q == value / base
    ensures |Numeral(value, base, upper)| == |Numeral(q, base, upper)| + 1
  {
  }

  lemma {:induction false} NumeralIsShort(value: nat, base: nat, upper: bool, k: nat)
    requires 2 <= base <= 16 && value < Pow(base, k)
    ensures |Numeral(value, base, upper)| <= k
    decreases k
  {
    if value != 0 && k != 0 {
      var q := value / base;
      QuotientIsBelow(value, base, Pow(base, k - 1), q);
      NumeralIsShort(q, base, upper, k - 1);
      OneDigitMore(value, base, upper, q);
    }
  }

  lemma Pow2Is()
    ensures Pow(2, 32) == TWO32
  {
    assert Pow(2, 2) == 4 && Pow(2, 4) == 16;
    PowAdd(2, 4, 4);
    PowAdd(2, 8, 8);
    PowAdd(2, 16, 16);
  }

  lemma BinaryText(n: nat, flags: Flags)
    requires n < TWO32 && flags == {}
    ensures IntegerText(n, 2, false, 0, 0, flags) == Digits(n, 2, flags)
  {
    Pow2Is();
    NumeralIsShort(n, 2, false, 32);
    DigitsAreNumeral(n, 2, false, ROOM);
    var rev := Start(n, 2, flags);
    assert Finished(rev, 2, false, 0, 0, flags) == rev;
    assert Fill(' ', -|Reverse(rev)|) + Reverse(rev) == Reverse(rev);
  }

  lemma BareSays(s: Spec, said: Flags)
    requires Bare(s) && SaidBy(s, said)
    ensures said == {}
  {
    forall x: Flag ensures x !in said {
      assert x.ZeroPad? || x.Left? || x.Plus? || x.Space? || x.Hash? || x.Upper? || x.Char? || x.Short? || x.Long?
        || x.LongLong? || x.Precision? || x.Pointer?;
    }
  }

  lemma BareRendered(s: Spec, f: string, more: string, args: seq<Arg>, rest: seq<Arg>) returns (d: Directive)
    requires Bare(s) && s.letter in "bp" && f == ['%', s.letter] + more
    requires ArgsAfter(s.letter, args) == rest && Supported(more, rest)
    ensures d.flags == {} && d.width == 0 && d.precision == 0 && d.va == args && Supported(f, args)
    ensures Render(f, args) == Field(s.letter, d) + Render(more, rest)
  {
    BareText(s, f, more, args);
    d := SpecIsRendered(s, f, more, args, rest);
    BareSays(s, d.flags);
  }

  /** The letter b alone shows a 32-bit value in binary digits. */
  lemma BareBinary(s: Spec, a: int, v: int, digits: string, more: string, rest: seq<Arg>)
    requires Bare(s) && s.letter == 'b' && IsArgument(s, a, v) && IsNumeral('b', digits, v, false)
    requires Supported(more, rest)
    ensures Supported("%b" + more, [IntArg(a)] + rest)
    ensures Render("%b" + more, [IntArg(a)] + rest) == digits + Render(more, rest)
  {
    var d := BareRendered(s, "%b" + more, more, [IntArg(a)] + rest, rest);
    BinaryFieldIs(a, v, digits, d, rest);
  }

  lemma BinaryFieldIs(a: int, v: int, digits: string, d: Directive, rest: seq<Arg>)
    requires d.flags == {} && d.width == 0 && d.precision == 0 && d.va == [IntArg(a)] + rest
    requires (a - v) % TWO32 == 0 && 0 <= v < TWO32 && IsNumeral('b', digits, v, false)
    ensures Field('b', d) == digits
  {
    ReadInBits(a, v, 32, TWO32);
    assert Normal('b', d.flags) == d.flags && ValueOf('b', d.flags, d.va) == v;
    NumeralIs('b', digits, v, 2, d.flags);
    BinaryText(v, d.flags);
  }

  lemma PointerText(value: nat, digits: string, flags: Flags)
    requires 0 < value < TWO32 && flags == {ZeroPad, Pointer} && digits == Numeral(value, 16, false)
    ensures |digits| <= 8 && IntegerText(value, 16, false, 0, 10, flags) == "0x" + (Fill('0', 8 - |digits|) + digits)
  {
    assert Pow(16, 2) == 256;
    PowAdd(16, 2, 2);
    PowAdd(16, 4, 4);
    NumeralIsShort(value, 16, false, 8);
    DigitsAreNumeral(value, 16, false, ROOM);
    var rev, n := Start(value, 16, flags), 8 - |digits|;
    var kept := rev + Fill('0', n);
    PointerZeros(rev, kept, flags);
    ReverseOfFill('0', n);
    MarkedReverses(rev, digits, Fill('0', n), 'x', kept);
  }

  lemma PointerZeros(rev: string, kept: string, flags: Flags)
    requires |rev| <= 8 && kept == rev + Fill('0', 8 - |rev|) && flags == {ZeroPad, Pointer}
    ensures Finished(rev, 16, false, 0, 10, flags) == kept + ['x'] + ['0']
  {
    var zeros := Zeros(rev, false, 0, 10, flags);
    assert zeros == rev + Fill('0', 10 - |rev|) && zeros[..8] == kept;
  }

  /** An address is shown as 0x and eight places for its digits in base 16, the null pointer as (nil). */
  function AddressShown(a: nat, digits: string): string {
    if a == 0 then "(nil)" else "0x" + (Fill('0', 8 - |digits|) + digits)
  }

  lemma BarePointer(s: Spec, a: nat, digits: string, f: string, more: string, args: seq<Arg>, rest: seq<Arg>)
    requires Bare(s) && s.letter == 'p' && f == ['%', s.letter] + more && args == [PtrArg(a)] + rest
    requires a < TWO32 && digits == Numeral(a, 16, false) && Supported(more, rest)
    ensures Supported(f, args) && Render(f, args) == AddressShown(a, digits) + Render(more, rest)
  {
    var d := BareRendered(s, f, more, args, rest);
    PointerFieldIs(d, a, digits, rest);
  }

  lemma PointerFieldIs(d: Directive, a: nat, digits: string, rest: seq<Arg>)
    requires d.flags == {} && d.precision == 0 && d.va == [PtrArg(a)] + rest
    requires a < TWO32 && digits == Numeral(a, 16, false)
    ensures PointerField(d) == AddressShown(a, digits)
  {
    SmallAddress(a, rest);
    AddressIs(d, a, digits);
  }

  lemma SmallAddress(a: nat, rest: seq<Arg>)
    requires a < TWO32
    ensures Unsigned(AddressOf([PtrArg(a)] + rest), 32) == a
  {
    assert AddressOf([PtrArg(a)] + rest) == a;
  }

  lemma AddressIs(d: Directive, a: nat, digits: string)
    requires d.flags == {} && d.precision == 0 && a < TWO32 && Unsigned(AddressOf(d.va), 32) == a
    requires digits == Numeral(a, 16, false)
    ensures PointerField(d) == AddressShown(a, digits)
  {
    var flags := d.flags + {ZeroPad, Pointer};
    assert flags == {ZeroPad, Pointer};
    if a != 0 { PointerText(a, digits, flags); }
  }
}

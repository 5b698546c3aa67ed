/** The text of a whole format: directives, their arguments, and what each is replaced by. */
module FormatText {
  import opened FormatInteger
  import opened Numbers

  /** The arguments after the format. Strings end where C strings end. */
  datatype Arg = IntArg(value: int) | StrArg(text: string) | NullArg | PtrArg(address: nat)

  /** Reading an argument that is not there, or of another kind, is undefined in C; here it yields a zero. */
  function IntOf(va: seq<Arg>): int {
    if va != [] && va[0].IntArg? then va[0].value else 0
  }

  function AddressOf(va: seq<Arg>): nat {
    if va != [] && va[0].PtrArg? then va[0].address else 0
  }

  function Next(va: seq<Arg>): seq<Arg> { if va == [] then [] else va[1..] }

  /** A value in the given number of bits, signed or not. */
  function Unsigned(v: int, bits: int): nat
    requires bits == 8 || bits == 16 || bits == 32 || bits == 64
  {
    v % (if bits == 8 then 0x100 else if bits == 16 then 0x1_0000 else if bits == 32 then TWO32 else TWO64)
  }

  function Signed(v: int, bits: int): int
    requires bits == 8 || bits == 16 || bits == 32 || bits == 64
  {
    var size := if bits == 8 then 0x100 else if bits == 16 then 0x1_0000 else if bits == 32 then TWO32 else TWO64;
    var u := v % size;
    if u >= size / 2 then u - size else u
  }

  // ---------------------------------------------------------------- directives

  function Head(f: string): char { if f == "" then '\0' else f[0] }

  function WithFlag(c: char, fl: Flags): Flags {
    if c == '0' then fl + {ZeroPad}
    else if c == '-' then fl + {Left}
    else if c == '+' then fl + {Plus}
    else if c == ' ' then fl + {Space}
    else fl + {Hash}
  }

  predicate IsFlag(c: char) { c == '0' || c == '-' || c == '+' || c == ' ' || c == '#' }

  datatype Directive = Directive(flags: Flags, width: nat, precision: nat, rest: string, va: seq<Arg>)

  function FlagsFrom(f: string, d: Directive): (r: Directive)
    ensures |r.rest| <= |f|
    decreases |f|
  {
    if f != "" && IsFlag(f[0]) then FlagsFrom(f[1..], d.(flags := WithFlag(f[0], d.flags))) else d.(rest := f)
  }

  function WidthFrom(d: Directive): (r: Directive)
    ensures |r.rest| <= |d.rest|
  {
    var f := d.rest;
    if IsDigit(Head(f)) then
      var n := AtoiFrom(f, 0);
      d.(width := n.0, rest := n.1)
    else if Head(f) == '*' then
      var w := Signed(IntOf(d.va), 32);
      d.(width := if w < 0 then -w else w, flags := if w < 0 then d.flags + {Left} else d.flags,
         rest := f[1..], va := Next(d.va))
    else d
  }

  function PrecisionFrom(d: Directive): (r: Directive)
    ensures |r.rest| <= |d.rest|
  {
    if Head(d.rest) != '.' then d else
    var fl, f := d.flags + {Precision}, d.rest[1..];
    if IsDigit(Head(f)) then
      var n := AtoiFrom(f, 0);
      d.(flags := fl, precision := n.0, rest := n.1)
    else if Head(f) == '*' then
      var p := Signed(IntOf(d.va), 32);
      d.(flags := fl, precision := if p > 0 then p else 0, rest := f[1..], va := Next(d.va))
    else d.(flags := fl, rest := f)
  }

  /** On the target, pointer differences and sizes are as wide as long, the widest integers as long long. */
  function LengthFrom(d: Directive): (r: Directive)
    ensures |r.rest| <= |d.rest|
  {
    var f := d.rest;
    var c := Head(f);
    if c == 'l' then
      if Head(f[1..]) == 'l' then d.(flags := d.flags + {Long, LongLong}, rest := f[2..])
      else d.(flags := d.flags + {Long}, rest := f[1..])
    else if c == 'h' then
      if Head(f[1..]) == 'h' then d.(flags := d.flags + {Short, Char}, rest := f[2..])
      else d.(flags := d.flags + {Short}, rest := f[1..])
    else if c == 't' || c == 'z' then d.(flags := d.flags + {Long}, rest := f[1..])
    else if c == 'j' then d.(flags := d.flags + {LongLong}, rest := f[1..])
    else d
  }

  /** Everything between a percent sign and the letter of the conversion, which comes first in what is left. */
  function Parse(f: string, va: seq<Arg>): (r: Directive)
    ensures |r.rest| <= |f|
  {
    LengthFrom(PrecisionFrom(WidthFrom(FlagsFrom(f, Directive({}, 0, 0, f, va)))))
  }

  // ---------------------------------------------------------------- conversions

  predicate IsInteger(c: char) { c in "diuxXob" }

  function BaseOf(c: char): nat {
    if c == 'x' || c == 'X' then 16 else if c == 'o' then 8 else if c == 'b' then 2 else 10
  }

  /** No alternative form in decimal, capitals for X, signs only for d and i, no zeros beside a precision. */
  function Normal(c: char, fl: Flags): Flags {
    var f1 := if BaseOf(c) == 10 then fl - {Hash} else fl;
    var f2 := if c == 'X' then f1 + {Upper} else f1;
    var f3 := if c != 'i' && c != 'd' then f2 - {Plus, Space} else f2;
    if Precision in f3 then f3 - {ZeroPad} else f3
  }

  function BitsOf(fl: Flags): int {
    if LongLong in fl then 64 else if Long in fl then 32 else if Char in fl then 8 else if Short in fl then 16 else 32
  }

  /** The value that a conversion reads: in its width, signed for d and i. */
  function ValueOf(c: char, fl: Flags, va: seq<Arg>): int {
    if c == 'd' || c == 'i' then Signed(IntOf(va), BitsOf(fl)) else Unsigned(IntOf(va), BitsOf(fl))
  }

  function Magnitude(v: int): nat { if v > 0 then v else -v }

  function IntegerField(c: char, d: Directive): string
    requires IsInteger(c)
  {
    var fl := Normal(c, d.flags);
    var v := ValueOf(c, fl, d.va);
    IntegerText(Magnitude(v), BaseOf(c), v < 0, d.precision, d.width, fl)
  }

  function Padded(core: string, width: nat, left: bool): string {
    if left then core + Fill(' ', width - |core|) else Fill(' ', width - |core|) + core
  }

  function StringField(d: Directive): string {
    if d.va != [] && d.va[0].StrArg? then
      var t := d.va[0].text;
      Padded(if Precision in d.flags then t[..Min(|t|, d.precision)] else t, d.width, Left in d.flags)
    else InField("(null)", d.width, d.flags)
  }

  const ADDRESS_WIDTH := 10

  function PointerField(d: Directive): string {
    var fl := d.flags + {ZeroPad, Pointer};
    var value := Unsigned(AddressOf(d.va), 32);
    if value == 0 then InField("(nil)", ADDRESS_WIDTH, fl)
    else IntegerText(value, 16, false, d.precision, ADDRESS_WIDTH, fl)
  }

  function Field(c: char, d: Directive): string {
    if IsInteger(c) then IntegerField(c, d)
    else if c == 'c' then Padded([Unsigned(IntOf(d.va), 8) as char], d.width, Left in d.flags)
    else if c == 's' then StringField(d)
    else if c == 'p' then PointerField(d)
    else [c]
  }

  predicate TakesArg(c: char) { IsInteger(c) || c == 'c' || c == 's' || c == 'p' }

  function ArgsAfter(c: char, va: seq<Arg>): seq<Arg> { if TakesArg(c) then Next(va) else va }

  predicate IsFloat(c: char) { c == 'f' || c == 'F' }

  /** The format is a C string without floating-point conversions, and no directive runs into its end. */
  predicate Supported(f: string, va: seq<Arg>)
    decreases |f|
  {
    f == "" ||
    if f[0] != '%' then f[0] != '\0' && Supported(f[1..], va)
    else
      var d := Parse(f[1..], va);
      d.rest != "" && d.rest[0] != '\0' && !IsFloat(d.rest[0])
      && Supported(d.rest[1..], ArgsAfter(d.rest[0], d.va))
  }

  /** The full text. */
  function Render(f: string, va: seq<Arg>): string
    requires Supported(f, va)
    decreases |f|
  {
    if f == "" then ""
    else if f[0] != '%' then [f[0]] + Render(f[1..], va)
    else
      var d := Parse(f[1..], va);
      Field(d.rest[0], d) + Render(d.rest[1..], ArgsAfter(d.rest[0], d.va))
  }

  /** No precision so far, and no pointer. */
  predicate Fresh(d: Directive) {
    Precision !in d.flags && Pointer !in d.flags && d.precision == 0
  }

  lemma FlagKeeps(c: char, fl: Flags)
    ensures (Precision in WithFlag(c, fl) <==> Precision in fl) && (Pointer in WithFlag(c, fl) <==> Pointer in fl)
  {
  }

  lemma {:induction false} FlagsKeep(f: string, d: Directive)
    requires Fresh(d)
    ensures Fresh(FlagsFrom(f, d))
    decreases |f|
  {
    if f != "" && IsFlag(f[0]) {
      FlagKeeps(f[0], d.flags);
      FlagsKeep(f[1..], d.(flags := WithFlag(f[0], d.flags)));
    }
  }

  lemma WidthKeeps(d: Directive)
    requires Fresh(d)
    ensures Fresh(WidthFrom(d))
  {
  }

  lemma PrecisionIsGiven(d: Directive)
    requires Fresh(d)
    ensures var r := PrecisionFrom(d); Pointer !in r.flags && (Precision in r.flags || r.precision == 0)
  {
  }

  lemma LengthKeeps(d: Directive)
    ensures var r := LengthFrom(d);
            (Pointer in r.flags <==> Pointer in d.flags) && (Precision in r.flags <==> Precision in d.flags)
                && r.precision == d.precision
  {
  }

  lemma NormalIsPlain(c: char, precision: nat, fl: Flags)
    requires Pointer !in fl && (Precision in fl || precision == 0)
    ensures var n := Normal(c, fl); Hash !in n ==> Plain(precision, n)
  {
  }

  lemma PrecisionComesWithFlag(f: string, va: seq<Arg>)
    ensures var d := Parse(f, va); Pointer !in d.flags && (Precision in d.flags || d.precision == 0)
  {
    var d1 := FlagsFrom(f, Directive({}, 0, 0, f, va));
    FlagsKeep(f, Directive({}, 0, 0, f, va));
    WidthKeeps(d1);
    PrecisionIsGiven(WidthFrom(d1));
    LengthKeeps(PrecisionFrom(WidthFrom(d1)));
  }

  /** The flags that a conversion passes on satisfy what the integer theorems ask, unless the alternative form is
      wanted. */
  lemma CallersAreNormal(c: char, f: string, va: seq<Arg>)
    requires IsInteger(c) && Hash !in Normal(c, Parse(f, va).flags)
    ensures var d := Parse(f, va); Plain(d.precision, Normal(c, d.flags))
  {
    var d := Parse(f, va);
    PrecisionComesWithFlag(f, va);
    NormalIsPlain(c, d.precision, d.flags);
  }

  /** In any format, an integer conversion in base 8, 10 or 16 that does not ask for the alternative form becomes the
      standard field of the argument it reads, if and only if that fits the buffer (or a lost space is refilled). */
  lemma DirectiveIsStandard(c: char, f: string, va: seq<Arg>)
    requires IsInteger(c) && c != 'b' && Hash !in Normal(c, Parse(f, va).flags)
    ensures var d := Parse(f, va);
            var fl := Normal(c, d.flags);
            var v := ValueOf(c, fl, d.va);
            var digits := Digits(Magnitude(v), BaseOf(c), fl);
            IntegerField(c, d) == Standard(digits, v < 0, d.precision, d.width, fl)
            <==> Fits(|digits|, v < 0, d.precision, d.width, fl)
                 || SpaceRefilled(|digits|, v < 0, d.precision, d.width, fl)
  {
    var d := Parse(f, va);
    var fl := Normal(c, d.flags);
    CallersAreNormal(c, f, va);
    ValueFits(c, fl, d.va);
    var v := ValueOf(c, fl, d.va);
    IntegerIsStandard(Magnitude(v), BaseOf(c), v < 0, d.precision, d.width, fl);
  }

  lemma ValueFits(c: char, fl: Flags, va: seq<Arg>)
    ensures Magnitude(ValueOf(c, fl, va)) < TWO64
  {
  }
}

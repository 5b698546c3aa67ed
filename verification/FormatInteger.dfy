/** The text that integer conversions produce: what the reversed 32-character buffer comes to hold, and the field that
    the C standard asks for. */
module FormatInteger {
  import opened Numbers

  const ROOM := 32
  const TWO32 := 0x1_0000_0000
  const TWO64 := 0x1_0000_0000_0000_0000

  datatype Flag =
    | ZeroPad | Left | Plus | Space | Hash | Upper | Char | Short | Long | LongLong | Precision | Pointer

  /** The bits of the flag word that are set. */
  type Flags = set<Flag>

  /** n copies of c; none if n is not positive. */
  function Fill(c: char, n: int): (r: string)
    ensures |r| == Max(n, 0)
  {
    seq(Max(n, 0), _ => c)
  }

  function Reverse(s: string): (r: string)
    ensures |r| == |s| && forall i :: 0 <= i < |s| ==> r[i] == s[|s| - 1 - i]
  {
    seq(|s|, i requires 0 <= i < |s| => s[|s| - 1 - i])
  }

  // ---------------------------------------------------------------- numerals

  function DigitChar(d: nat, upper: bool): char
    requires d < 16
  {
    if d < 10 then '0' + d as char else (if upper then 'A' else 'a') + (d - 10) as char
  }

  /** The positional numeral, without leading zeros; zero has no digit. */
  function Numeral(value: nat, base: nat, upper: bool): string
    requires 2 <= base <= 16
  {
    if value == 0 then "" else Numeral(value / base, base, upper) + [DigitChar(value % base, upper)]
  }

  /** The digits that the loop of print_integer() stores, lowest first, as long as there is room. */
  function DigitsRev(value: nat, base: nat, upper: bool, room: nat): (r: string)
    requires 2 <= base <= 16
    ensures |r| <= room
    decreases room
  {
    if value == 0 || room == 0 then ""
    else [DigitChar(value % base, upper)] + DigitsRev(value / base, base, upper, room - 1)
  }

  function Pow(b: nat, k: nat): nat { if k == 0 then 1 else b * Pow(b, k - 1) }

  /** In bases from 8 up every k digits cover 8^k values. */
  lemma {:induction false} NumeralLength(value: nat, base: nat, upper: bool, k: nat)
    requires 8 <= base <= 16 && value < Pow(8, k)
    ensures |Numeral(value, base, upper)| <= k
  {
    if value != 0 && k != 0 {
      assert value / base <= value / 8 by { QuotientShrinks(value, base); }
      assert value / 8 < Pow(8, k - 1);
      NumeralLength(value / base, base, upper, k - 1);
    }
  }

  lemma QuotientShrinks(value: nat, base: nat)
    requires 8 <= base
    ensures value / base <= value / 8
  {
    var q := value / base;
    assert value == base * q + value % base;
    assert 8 * q <= base * q;
  }

  lemma {:induction false} PowAdd(b: nat, j: nat, k: nat)
    ensures Pow(b, j + k) == Pow(b, j) * Pow(b, k)
  {
    if j != 0 { PowAdd(b, j - 1, k); }
  }

  lemma Pow8Covers64Bits()
    ensures TWO64 <= Pow(8, 22)
  {
    assert Pow(8, 2) == 64 && Pow(8, 4) == 4096;
    PowAdd(8, 4, 4);
    PowAdd(8, 8, 8);
    PowAdd(8, 16, 4);
    PowAdd(8, 20, 2);
  }

  /** With room enough the stored digits are the numeral, back to front. */
  lemma {:induction false} DigitsAreNumeral(value: nat, base: nat, upper: bool, room: nat)
    requires 2 <= base <= 16 && |Numeral(value, base, upper)| <= room
    ensures Reverse(DigitsRev(value, base, upper, room)) == Numeral(value, base, upper)
    decreases room
  {
    if value != 0 {
      var d := DigitChar(value % base, upper);
      assert Numeral(value, base, upper) == Numeral(value / base, base, upper) + [d];
      DigitsAreNumeral(value / base, base, upper, room - 1);
      var rest := DigitsRev(value / base, base, upper, room - 1);
      assert Reverse([d] + rest) == Reverse(rest) + [d];
    }
  }

  /** Every 64-bit value in base 8, 10 or 16 has at most 22 digits, and the buffer holds them all. */
  lemma AllDigitsFit(value: nat, base: nat, upper: bool)
    requires value < TWO64 && (base == 8 || base == 10 || base == 16)
    ensures |Numeral(value, base, upper)| <= 22
    ensures Reverse(DigitsRev(value, base, upper, ROOM)) == Numeral(value, base, upper)
  {
    Pow8Covers64Bits();
    NumeralLength(value, base, upper, 22);
    DigitsAreNumeral(value, base, upper, ROOM);
  }

  function DigitValue(c: char): int {
    if '0' <= c <= '9' then (c - '0') as int else if 'a' <= c <= 'f' then (c - 'a') as int + 10
    else if 'A' <= c <= 'F' then (c - 'A') as int + 10 else 0
  }

  /** What a string of digits stands for in a base. */
  function PlaceValue(s: string, base: int): int {
    if s == "" then 0 else PlaceValue(s[..|s| - 1], base) * base + DigitValue(s[|s| - 1])
  }

  lemma DigitReadsBack(d: nat, upper: bool)
    requires d < 16
    ensures DigitValue(DigitChar(d, upper)) == d && (DigitChar(d, upper) == '0' <==> d == 0)
  {
  }

  lemma OneMorePlace(s: string, c: char, base: int, t: string)
    requires t == s + [c]
    ensures PlaceValue(t, base) == PlaceValue(s, base) * base + DigitValue(c)
  {
    assert t[..|t| - 1] == s;
  }

  /** The numeral stands for the value. */
  lemma {:induction false} NumeralIsPositional(value: nat, base: nat, upper: bool)
    requires 2 <= base <= 16
    ensures PlaceValue(Numeral(value, base, upper), base) == value
  {
    if value != 0 {
      var q, d := value / base, value % base;
      NumeralIsPositional(q, base, upper);
      DigitReadsBack(d, upper);
      OneMorePlace(Numeral(q, base, upper), DigitChar(d, upper), base, Numeral(value, base, upper));
      Recompose(value, base);
    }
  }

  lemma Recompose(value: nat, base: nat)
    requires base != 0
    ensures value == value / base * base + value % base
  {
  }

  predicate IsDigit(c: char) { '0' <= c <= '9' }

  /** atoi_(): the value of the digits at the front, modulo 2^32, and what follows them. */
  function AtoiFrom(f: string, acc: nat): (r: (nat, string))
    requires acc < TWO32
    ensures r.0 < TWO32 && |r.1| <= |f|
    decreases |f|
  {
    if f != "" && IsDigit(f[0]) then AtoiFrom(f[1..], (acc * 10 + (f[0] - '0') as nat) % TWO32) else (acc, f)
  }

  /** One more digit. */
  lemma AtoiStep(q: nat, d: nat, more: string)
    requires d < 10 && 10 * q + d < TWO32
    ensures AtoiFrom([DigitChar(d, false)] + more, q) == AtoiFrom(more, 10 * q + d)
  {
    var c := DigitChar(d, false);
    assert ([c] + more)[1..] == more;
    assert IsDigit(c) && (c - '0') as nat == d;
  }

  /** Reading a numeral leaves its value in the accumulator, whatever follows. */
  lemma {:induction false} AtoiOfPrefix(value: nat, more: string, text: string)
    requires value < TWO32 && text == Numeral(value, 10, false) + more
    ensures AtoiFrom(text, 0) == AtoiFrom(more, value)
    decreases value
  {
    if value == 0 {
      assert text == more;
    } else {
      var q, d := value / 10, value % 10;
      var rest := [DigitChar(d, false)] + more;
      assert text == Numeral(q, 10, false) + rest;
      AtoiOfPrefix(q, rest, text);
      AtoiStep(q, d, more);
    }
  }

  // ---------------------------------------------------------------- the field

  function Sign(negative: bool, flags: Flags): string {
    if negative then "-" else if Plus in flags then "+" else if Space in flags then " " else ""
  }

  /** The digits of a value; an explicit precision takes the only digit of zero away. */
  function Digits(value: nat, base: nat, flags: Flags): string
    requires 2 <= base <= 16
  {
    if value == 0 && Precision !in flags then "0" else Numeral(value, base, Upper in flags)
  }

  /** How many places the field shows for a number with this many digits, leading zeros included. */
  function Places(digits: nat, sign: nat, precision: nat, width: nat, flags: Flags): nat {
    Max(digits, Max(precision, if ZeroPad in flags && Left !in flags then width - sign else 0))
  }

  /** Sign, zeros up to the number of places, and digits. */
  function Whole(d: string, sign: string, places: nat): string {
    sign + (Fill('0', places - |d|) + d)
  }

  /** Spaces on the left, or on the right, or none where zeros fill the field. */
  function InField(core: string, width: nat, flags: Flags): string {
    var pad := Fill(' ', width - |core|);
    if Left in flags then core + pad else if ZeroPad in flags then core else pad + core
  }

  /** The field of section 7.21.6.1 of ISO/IEC 9899:2011 for the digits d, without the alternative form. */
  function Standard(d: string, negative: bool, precision: nat, width: nat, flags: Flags): string {
    var sign := Sign(negative, flags);
    InField(Whole(d, sign, Places(|d|, |sign|, precision, width, flags)), width, flags)
  }

  // ---------------------------------------------------------------- what the code puts into its buffer

  /** Zeros up to n characters, but not past the end of the buffer. */
  function ZerosTo(rev: string, n: int): string
  {
    rev + Fill('0', Min(n, ROOM) - |rev|)
  }

  /** The buffer after the digits. */
  function Start(value: nat, base: nat, flags: Flags): (r: string)
    requires 2 <= base <= 16
    ensures |r| <= ROOM
  {
    if value == 0 then (if Precision in flags then "" else "0") else DigitsRev(value, base, Upper in flags, ROOM)
  }

  /** The width that is left for the zeros once the sign has its place. */
  function ZeroWidth(negative: bool, width: nat, flags: Flags): nat {
    if width != 0 && ZeroPad in flags && (negative || Plus in flags || Space in flags) then width - 1 else width
  }

  function WidthLeft(negative: bool, width: nat, flags: Flags): nat {
    if Left in flags then width else ZeroWidth(negative, width, flags)
  }

  function Zeros(rev: string, negative: bool, precision: nat, width: nat, flags: Flags): string {
    ZerosTo(if ZeroPad in flags && Left !in flags then ZerosTo(rev, ZeroWidth(negative, width, flags)) else rev,
        precision)
  }

  function Put(rev: string, s: string): string {
    if |rev| < ROOM then rev + s else rev
  }

  /** How much of the buffer is left when padding zeros are taken back to make room for a prefix. */
  function TakenBack(len: nat, digits: nat, base: nat, precision: nat, width: nat, flags: Flags): (r: nat)
    ensures r <= len
  {
    if Precision !in flags && len != 0 && (len == precision || len == width) then
      var l := if digits < len then len - 1 else len;
      if l != 0 && base == 16 && digits < l then l - 1 else l
    else len
  }

  /** The alternative form: the prefix of the base, back to front. */
  function Prefixed(rev: string, digits: nat, base: nat, precision: nat, width: nat, flags: Flags): string {
    var octalDone := base == 8 && |rev| > digits;
    if !((Hash in flags && !octalDone) || Pointer in flags) then rev else
    var r := rev[..TakenBack(|rev|, digits, base, precision, width, flags)];
    var marked :=
      if base == 16 then Put(r, if Upper in flags then "X" else "x") else if base == 2 then Put(r, "b") else r;
    Put(marked, "0")
  }

  /** The alternative form is dropped for a zero that has a digit, and in base 16 for every zero. */
  function HashKept(value: nat, base: nat, flags: Flags): Flags {
    if value == 0 && (Precision !in flags || base == 16) then flags - {Hash} else flags
  }

  /** The buffer at the end of print_integer_finalization(), from the one at its beginning. */
  function Finished(digits: string, base: nat, negative: bool, precision: nat, width: nat, flags: Flags): string {
    var zeros := Zeros(digits, negative, precision, width, flags);
    Put(Prefixed(zeros, |digits|, base, precision, WidthLeft(negative, width, flags), flags), Sign(negative, flags))
  }

  /** The text that print_integer_finalization() emits. */
  function Emitted(digits: string, base: nat, negative: bool, precision: nat, width: nat, flags: Flags): string {
    InField(Reverse(Finished(digits, base, negative, precision, width, flags)), WidthLeft(negative, width, flags),
        flags)
  }

  /** The text that print_integer() emits. */
  function IntegerText(value: nat, base: nat, negative: bool, precision: nat, width: nat, flags: Flags): string
    requires 2 <= base <= 16
  {
    var fl := HashKept(value, base, flags);
    Emitted(Start(value, base, fl), base, negative, precision, width, fl)
  }

  // ---------------------------------------------------------------- when the two agree

  /** What the callers see to: no '0' flag beside a precision, no precision that was not given; and here neither of the
      two alternative forms. */
  predicate Plain(precision: nat, flags: Flags) {
    && !(Precision in flags && ZeroPad in flags) && (Precision in flags || precision == 0)
    && Hash !in flags && Pointer !in flags
  }

  lemma ReverseOfConcat(a: string, b: string)
    ensures Reverse(a + b) == Reverse(b) + Reverse(a)
  {
  }

  lemma ReverseOfFill(c: char, n: int)
    ensures Reverse(Fill(c, n)) == Fill(c, n)
  {
  }

  lemma SignReverses(negative: bool, flags: Flags)
    ensures Reverse(Sign(negative, flags)) == Sign(negative, flags) && |Sign(negative, flags)| <= 1
  {
  }

  /** The sign is kept when there is room behind the places, the places as far as the buffer goes. */
  function Kept(d: string, sign: string, places: nat): string {
    (if places < ROOM then sign else "") + (Fill('0', Min(places, ROOM) - |d|) + d)
  }

  lemma KeptIs(digits: string, d: string, sign: string, places: nat)
    requires Reverse(digits) == d && |d| <= 22 && |d| <= places && Reverse(sign) == sign
    ensures Reverse(Put(digits + Fill('0', Min(places, ROOM) - |d|), sign)) == Kept(d, sign, places)
  {
    var fill := Fill('0', Min(places, ROOM) - |d|);
    ReverseOfConcat(digits, fill);
    ReverseOfFill('0', Min(places, ROOM) - |d|);
    ReverseOfConcat(digits + fill, sign);
    assert Reverse(digits + fill) == fill + d;
  }

  lemma ZerosAre(digits: string, negative: bool, precision: nat, width: nat, flags: Flags)
    requires |digits| <= 22 && Plain(precision, flags)
    ensures var places := Places(|digits|, |Sign(negative, flags)|, precision, width, flags);
            Zeros(digits, negative, precision, width, flags) == digits + Fill('0', Min(places, ROOM) - |digits|)
  {
  }

  /** What ends up in the buffer without the alternative forms: the sign, unless it comes too late, and as many places
      as there is room for. */
  lemma FinishedIs(digits: string, d: string, base: nat, negative: bool, precision: nat, width: nat, flags: Flags)
    requires Reverse(digits) == d && |d| <= 22 && Plain(precision, flags)
    ensures var sign := Sign(negative, flags);
            Reverse(Finished(digits, base, negative, precision, width, flags))
              == Kept(d, sign, Places(|d|, |sign|, precision, width, flags))
  {
    var sign := Sign(negative, flags);
    ZerosAre(digits, negative, precision, width, flags);
    SignReverses(negative, flags);
    KeptIs(digits, d, sign, Places(|d|, |sign|, precision, width, flags));
    PrefixIsOff(Zeros(digits, negative, precision, width, flags), |digits|, base, precision,
      WidthLeft(negative, width, flags), flags);
  }

  lemma EmittedIs(digits: string, d: string, base: nat, negative: bool, precision: nat, width: nat, flags: Flags)
    requires Reverse(digits) == d && |d| <= 22 && Plain(precision, flags)
    ensures var sign := Sign(negative, flags);
            Emitted(digits, base, negative, precision, width, flags)
              == InField(Kept(d, sign, Places(|d|, |sign|, precision, width, flags)), width, flags)
  {
    FinishedIs(digits, d, base, negative, precision, width, flags);
    WidthLeftDoes(Reverse(Finished(digits, base, negative, precision, width, flags)), negative, width, flags);
  }

  lemma PrefixIsOff(rev: string, digits: nat, base: nat, precision: nat, width: nat, flags: Flags)
    requires Hash !in flags && Pointer !in flags
    ensures Prefixed(rev, digits, base, precision, width, flags) == rev
  {
  }

  /** The one column taken off the width for the sign matters only where zeros fill the field. */
  lemma WidthLeftDoes(core: string, negative: bool, width: nat, flags: Flags)
    ensures InField(core, WidthLeft(negative, width, flags), flags) == InField(core, width, flags)
  {
  }

  /** The places and the sign fit the buffer. */
  predicate Fits(digits: nat, negative: bool, precision: nat, width: nat, flags: Flags) {
    var sign := |Sign(negative, flags)|;
    Places(digits, sign, precision, width, flags) + sign <= ROOM
  }

  /** The one lucky case beyond: a space that was dropped as the sign is put back as padding. */
  predicate SpaceRefilled(digits: nat, negative: bool, precision: nat, width: nat, flags: Flags) {
    && Sign(negative, flags) == " " && Left !in flags && ZeroPad !in flags && ROOM < width
    && Places(digits, 1, precision, width, flags) == ROOM
  }

  lemma FieldAgrees(digits: string, d: string, base: nat, negative: bool, precision: nat, width: nat, flags: Flags)
    requires Reverse(digits) == d && |d| <= 22 && Plain(precision, flags)
    requires forall i :: 0 <= i < |d| ==> d[i] != ' '
    ensures Emitted(digits, base, negative, precision, width, flags) == Standard(d, negative, precision, width, flags)
            <==> Fits(|d|, negative, precision, width, flags) || SpaceRefilled(|d|, negative, precision, width, flags)
  {
    EmittedIs(digits, d, base, negative, precision, width, flags);
    KeptAgrees(d, negative, precision, width, flags);
  }

  lemma KeptAgrees(d: string, negative: bool, precision: nat, width: nat, flags: Flags)
    requires |d| <= 22 && forall i :: 0 <= i < |d| ==> d[i] != ' '
    ensures var sign := Sign(negative, flags);
            InField(Kept(d, sign, Places(|d|, |sign|, precision, width, flags)), width, flags)
              == Standard(d, negative, precision, width, flags)
            <==> Fits(|d|, negative, precision, width, flags) || SpaceRefilled(|d|, negative, precision, width, flags)
  {
    var sign := Sign(negative, flags);
    var places := Places(|d|, |sign|, precision, width, flags);
    SignReverses(negative, flags);
    if places + |sign| > ROOM {
      CutShows(d, sign, places, width, flags);
    } else {
      assert Kept(d, sign, places) == Whole(d, sign, places);
    }
  }

  /** No digit and no sign but the space looks like padding, so what is cut off shows. */
  lemma CutShows(d: string, sign: string, places: nat, width: nat, flags: Flags)
    requires |d| <= 22 && |d| <= places && ROOM < places + |sign| && |sign| <= 1
    requires ZeroPad in flags && Left !in flags ==> width - |sign| <= places
    requires forall i :: 0 <= i < |d| ==> d[i] != ' '
    requires sign == "" || sign == "-" || sign == "+" || sign == " "
    ensures InField(Kept(d, sign, places), width, flags) == InField(Whole(d, sign, places), width, flags)
            <==> sign == " " && Left !in flags && ZeroPad !in flags && ROOM < width && places == ROOM
  {
    var cut, body := Kept(d, sign, places), Fill('0', places - |d|) + d;
    assert cut == Fill('0', ROOM - |d|) + d && Whole(d, sign, places) == sign + body;
    if Left in flags {
      CutShowsLeft(cut, sign, body, width);
    } else if ZeroPad !in flags {
      CutShowsRight(cut, sign, body, width);
    }
  }

  lemma CutShowsLeft(cut: string, sign: string, body: string, width: nat)
    requires |cut| == ROOM && ROOM <= |body| && ROOM < |body| + |sign| && |sign| <= 1
    requires forall i :: 0 <= i < |body| ==> body[i] != ' '
    requires cut[0] != ' ' && cut[0] != '-' && cut[0] != '+'
    requires sign == "" || sign == "-" || sign == "+" || sign == " "
    ensures cut + Fill(' ', width - |cut|) != sign + body + Fill(' ', width - |sign + body|)
  {
    var e, s := cut + Fill(' ', width - |cut|), sign + body + Fill(' ', width - |sign + body|);
    if sign != "" {
      assert s[0] == sign[0] && e[0] == cut[0];
    } else if |e| == |s| {
      assert s[ROOM] == body[ROOM] && e[ROOM] == ' ';
    }
  }

  lemma CutShowsRight(cut: string, sign: string, body: string, width: nat)
    requires |cut| == ROOM && ROOM <= |body| && ROOM < |body| + |sign| && |sign| <= 1
    requires |body| == ROOM ==> cut == body
    requires forall i :: 0 <= i < |body| ==> body[i] != ' '
    requires sign == "" || sign == "-" || sign == "+" || sign == " "
    ensures Fill(' ', width - |cut|) + cut == Fill(' ', width - |sign + body|) + (sign + body)
            <==> sign == " " && ROOM < width && |body| == ROOM
  {
    var whole := sign + body;
    var e, s := Fill(' ', width - |cut|) + cut, Fill(' ', width - |whole|) + whole;
    if |e| == |s| {
      var k := |s| - 1 - ROOM;
      assert s[k] == whole[|whole| - 1 - ROOM] && e[k] == ' ';
    }
  }

  lemma {:induction false} NumeralHasNoSpace(value: nat, base: nat, upper: bool)
    requires 2 <= base <= 16
    ensures forall i :: 0 <= i < |Numeral(value, base, upper)| ==> Numeral(value, base, upper)[i] != ' '
  {
    if value != 0 { NumeralHasNoSpace(value / base, base, upper); }
  }

  lemma StartIs(value: nat, base: nat, flags: Flags)
    requires value < TWO64 && (base == 8 || base == 10 || base == 16)
    ensures var d := Digits(value, base, flags);
            Reverse(Start(value, base, flags)) == d && |d| <= 22 && forall i :: 0 <= i < |d| ==> d[i] != ' '
  {
    AllDigitsFit(value, base, Upper in flags);
    NumeralHasNoSpace(value, base, Upper in flags);
  }

  /** print_integer() emits the field of the standard if and only if its places and sign fit the buffer of 32
      characters, or the dropped sign is a space that the padding makes good. */
  lemma IntegerIsStandard(value: nat, base: nat, negative: bool, precision: nat, width: nat, flags: Flags)
    requires value < TWO64 && (base == 8 || base == 10 || base == 16) && Plain(precision, flags)
    ensures var d := Digits(value, base, flags);
            IntegerText(value, base, negative, precision, width, flags)
                == Standard(d, negative, precision, width, flags)
            <==> Fits(|d|, negative, precision, width, flags) || SpaceRefilled(|d|, negative, precision, width, flags)
  {
    assert HashKept(value, base, flags) == flags;
    StartIs(value, base, flags);
    FieldAgrees(Start(value, base, flags), Digits(value, base, flags), base, negative, precision, width, flags);
  }

  /** The field has the larger of the width and what sign and places need; up to 31 everything fits. */
  lemma FieldLength(value: nat, base: nat, negative: bool, precision: nat, width: nat, flags: Flags)
    requires value < TWO64 && (base == 8 || base == 10 || base == 16) && Plain(precision, flags)
    requires precision <= 31 && width <= 31
    ensures var d, sign := Digits(value, base, flags), Sign(negative, flags);
            var text := IntegerText(value, base, negative, precision, width, flags);
            text == Standard(d, negative, precision, width, flags)
            && |text| == Max(width, |sign| + Max(|d|, precision))
  {
    StartIs(value, base, flags);
    SignReverses(negative, flags);
    IntegerIsStandard(value, base, negative, precision, width, flags);
    StandardLength(Digits(value, base, flags), negative, precision, width, flags);
  }

  lemma StandardLength(d: string, negative: bool, precision: nat, width: nat, flags: Flags)
    ensures |Standard(d, negative, precision, width, flags)|
        == Max(width, |Sign(negative, flags)| + Max(|d|, precision))
  {
  }

  /** Beyond the buffer the sign gets lost: minus one in a zero-filled field of 33 comes out as 32 digits. */
  lemma SignGetsLost(flags: Flags)
    requires Plain(0, flags) && ZeroPad in flags && Left !in flags
    ensures IntegerText(1, 10, true, 0, 33, flags) == Fill('0', 31) + "1"
    ensures Standard("1", true, 0, 33, flags) == "-" + Fill('0', 31) + "1"
  {
    assert HashKept(1, 10, flags) == flags;
    assert DigitsRev(1, 10, Upper in flags, ROOM) == "1" by { assert DigitsRev(0, 10, Upper in flags, ROOM - 1) == ""; }
    assert Reverse("1") == "1";
    EmittedIs("1", "1", 10, true, 0, 33, flags);
  }

  lemma PlainDecimal(value: nat, d: string)
    requires value < TWO32 && d == Digits(value, 10, {})
    ensures IntegerText(value, 10, false, 0, 0, {}) == d
  {
    AllDigitsFit(value, 10, false);
    IntegerIsStandard(value, 10, false, 0, 0, {});
    assert |d| <= 22 && Standard(d, false, 0, 0, {}) == d;
  }

  /** atoi_() recovers every 32-bit value that print_integer() has printed in plain decimal, whatever follows it. */
  lemma AtoiRecovers(value: nat, more: string)
    requires value < TWO32 && (more == "" || !IsDigit(more[0]))
    ensures AtoiFrom(IntegerText(value, 10, false, 0, 0, {}) + more, 0) == (value, more)
  {
    var d := Digits(value, 10, {});
    var text := d + more;
    PlainDecimal(value, d);
    if value == 0 {
      AtoiOfZero(more, text);
    } else {
      AtoiOfPrefix(value, more, text);
    }
  }

  lemma AtoiOfZero(more: string, text: string)
    requires text == "0" + more
    ensures AtoiFrom(text, 0) == AtoiFrom(more, 0)
  {
    assert text[1..] == more;
  }
}

/** The alternative form of integer conversions, which '#' asks for: the prefix 0x, or a leading zero in octal. */
module FormatAlternative {
  import opened FormatInteger
  import opened FormatText
  import opened Numbers

  /** What the callers see to for the conversions o, x and X: no '0' flag beside a precision, no precision that was not
      given, and no flags for a sign. */
  predicate Alternative(precision: nat, flags: Flags) {
    && !(Precision in flags && ZeroPad in flags) && (Precision in flags || precision == 0)
    && Hash in flags && Pointer !in flags && Plus !in flags && Space !in flags
  }

  function Prefix(value: nat, base: nat, flags: Flags): string {
    if base == 16 && value != 0 then (if Upper in flags then "0X" else "0x") else ""
  }

  /** In octal the first digit is forced to be a zero. */
  function PlacesOf(d: string, value: nat, base: nat, precision: nat, width: nat, flags: Flags): nat {
    var places := Places(|d|, |Prefix(value, base, flags)|, precision, width, flags);
    if base == 8 && (value != 0 || d == "") then Max(places, |d| + 1) else places
  }

  /** The field of section 7.21.6.1 of ISO/IEC 9899:2011 in the alternative form. */
  function Alternate(value: nat, base: nat, precision: nat, width: nat, flags: Flags): string
    requires 2 <= base <= 16
  {
    var d := Digits(value, base, flags);
    InField(Whole(d, Prefix(value, base, flags), PlacesOf(d, value, base, precision, width, flags)), width, flags)
  }

  predicate AlternateFits(value: nat, base: nat, precision: nat, width: nat, flags: Flags)
    requires 2 <= base <= 16
  {
    var d := Digits(value, base, flags);
    |Prefix(value, base, flags)| + PlacesOf(d, value, base, precision, width, flags) <= ROOM
  }

  // ---------------------------------------------------------------- without a mark

  lemma ZerosWithout(rev: string, precision: nat, width: nat, flags: Flags)
    requires |rev| <= 22 && Alternative(precision, flags)
    ensures var zeros := Zeros(rev, false, precision, width, flags);
            && zeros == Zeros(rev, false, precision, width, flags - {Hash})
            && zeros == rev + Fill('0', Min(Places(|rev|, 0, precision, width, flags), ROOM) - |rev|)
  {
    ZerosAre(rev, false, precision, width, flags - {Hash});
  }

  lemma NoMark(rev: string, d: string, base: nat, precision: nat, width: nat, flags: Flags)
    requires Reverse(rev) == d && |d| <= 22 && Alternative(precision, flags)
    requires base == 8 && |Zeros(rev, false, precision, width, flags)| > |rev|
    ensures Emitted(rev, base, false, precision, width, flags)
            == Emitted(rev, base, false, precision, width, flags - {Hash})
  {
    ZerosWithout(rev, precision, width, flags);
  }

  lemma PlainAgrees(rev: string, d: string, base: nat, precision: nat, width: nat, flags: Flags)
    requires Reverse(rev) == d && |d| <= 22 && Alternative(precision, flags)
    requires forall i :: 0 <= i < |d| ==> d[i] != ' '
    ensures Emitted(rev, base, false, precision, width, flags - {Hash})
              == InField(Whole(d, "", Places(|d|, 0, precision, width, flags)), width, flags)
            <==> Places(|d|, 0, precision, width, flags) <= ROOM
  {
    FieldAgrees(rev, d, base, false, precision, width, flags - {Hash});
  }

  // ---------------------------------------------------------------- octal

  lemma OctalMark(rev: string, d: string, precision: nat, width: nat, flags: Flags)
    requires Reverse(rev) == d && |d| <= 22 && Alternative(precision, flags)
    requires |Zeros(rev, false, precision, width, flags)| == |rev|
    ensures Emitted(rev, 8, false, precision, width, flags) == InField("0" + d, width, flags)
    ensures Places(|d|, 0, precision, width, flags) == |d|
  {
    ZerosWithout(rev, precision, width, flags);
    var zeros := Zeros(rev, false, precision, width, flags);
    assert zeros == rev && zeros[..|rev|] == rev;
    assert Finished(rev, 8, false, precision, width, flags) == rev + "0";
    ReverseOfConcat(rev, "0");
    assert Reverse("0") == "0";
  }

  // ---------------------------------------------------------------- base 16

  /** Padding zeros are taken back as far as the prefix needs their places. */
  lemma HexZeros(rev: string, precision: nat, width: nat, flags: Flags)
    requires 0 < |rev| <= 22 && Alternative(precision, flags)
    ensures var zeros := Zeros(rev, false, precision, width, flags);
            var places := Places(|rev|, 2, precision, width, flags);
            var kept := zeros[..TakenBack(|zeros|, |rev|, 16, precision, width, flags)];
            if places + 2 <= ROOM then kept == rev + Fill('0', places - |rev|)
            else |kept| >= ROOM - 1 && kept == rev + Fill('0', |kept| - |rev|)
  {
    ZerosWithout(rev, precision, width, flags);
  }

  lemma HexFinished(rev: string, zeros: string, kept: string, precision: nat, width: nat, flags: Flags)
    requires Alternative(precision, flags) && zeros == Zeros(rev, false, precision, width, flags)
    requires kept == zeros[..TakenBack(|zeros|, |rev|, 16, precision, width, flags)] && |kept| + 2 <= ROOM
    ensures Finished(rev, 16, false, precision, width, flags)
              == kept + [if Upper in flags then 'X' else 'x'] + ['0']
  {
  }

  lemma HexFits(rev: string, d: string, precision: nat, width: nat, flags: Flags, prefix: string)
    requires Reverse(rev) == d && 0 < |d| <= 22 && Alternative(precision, flags)
    requires prefix == (if Upper in flags then "0X" else "0x") && Places(|d|, 2, precision, width, flags) + 2 <= ROOM
    ensures Reverse(Finished(rev, 16, false, precision, width, flags))
              == Whole(d, prefix, Places(|d|, 2, precision, width, flags))
  {
    HexZeros(rev, precision, width, flags);
    var n := Places(|d|, 2, precision, width, flags) - |d|;
    var x, kept := if Upper in flags then 'X' else 'x', rev + Fill('0', n);
    HexFinished(rev, Zeros(rev, false, precision, width, flags), kept, precision, width, flags);
    ReverseOfFill('0', n);
    MarkedReverses(rev, d, Fill('0', n), x, kept);
    assert prefix == ['0', x];
  }

  lemma MarkedReverses(rev: string, d: string, fill: string, x: char, kept: string)
    requires Reverse(rev) == d && kept == rev + fill && Reverse(fill) == fill
    ensures Reverse(kept + [x] + ['0']) == ['0', x] + (fill + d)
  {
    ReverseOfConcat(rev, fill);
    assert Reverse(kept) == fill + d;
    assert kept + [x] + ['0'] == kept + [x, '0'];
    ReverseOfConcat(kept, [x, '0']);
    assert Reverse([x, '0']) == ['0', x];
  }

  /** Where the prefix does not fit, what comes out has 32 characters and no prefix in place. */
  lemma HexCut(rev: string, d: string, precision: nat, width: nat, flags: Flags)
    requires Reverse(rev) == d && 0 < |d| <= 22 && Alternative(precision, flags)
    requires Places(|d|, 2, precision, width, flags) + 2 > ROOM
    ensures var cut := Reverse(Finished(rev, 16, false, precision, width, flags));
            |cut| == ROOM && cut[1] == '0'
  {
    HexZeros(rev, precision, width, flags);
    var zeros := Zeros(rev, false, precision, width, flags);
    var kept := zeros[..TakenBack(|zeros|, |rev|, 16, precision, width, flags)];
    var done := Finished(rev, 16, false, precision, width, flags);
    assert |kept| == ROOM ==> done == kept;
    assert |kept| == ROOM - 1 ==> done == kept + (if Upper in flags then "X" else "x");
    assert done[ROOM - 2] == kept[ROOM - 2] == '0';
  }

  lemma CutPrefixShows(cut: string, whole: string, width: nat, flags: Flags)
    requires |cut| == ROOM && cut[1] == '0' && |whole| > ROOM && whole[0] == '0' && whole[1] != '0'
    requires ZeroPad in flags && Left !in flags ==> width <= |whole|
    ensures InField(cut, width, flags) != InField(whole, width, flags)
  {
    var e, s := InField(cut, width, flags), InField(whole, width, flags);
    if Left in flags {
      assert e[1] == '0' && s[1] == whole[1];
    } else if ZeroPad !in flags && |e| == |s| {
      var k := |s| - |whole|;
      assert s[k] == '0' && e[k] == ' ';
    }
  }

  lemma HexAgrees(rev: string, d: string, precision: nat, width: nat, flags: Flags, prefix: string)
    requires Reverse(rev) == d && 0 < |d| <= 22 && Alternative(precision, flags)
    requires prefix == (if Upper in flags then "0X" else "0x")
    ensures var places := Places(|d|, 2, precision, width, flags);
            Emitted(rev, 16, false, precision, width, flags) == InField(Whole(d, prefix, places), width, flags)
            <==> 2 + places <= ROOM
  {
    var places := Places(|d|, 2, precision, width, flags);
    if 2 + places <= ROOM {
      HexFits(rev, d, precision, width, flags, prefix);
    } else {
      HexCut(rev, d, precision, width, flags);
      var whole := Whole(d, prefix, places);
      assert whole[0] == prefix[0] && whole[1] == prefix[1];
      CutPrefixShows(Reverse(Finished(rev, 16, false, precision, width, flags)), whole, width, flags);
    }
  }

  // ---------------------------------------------------------------- the law

  /** With '#' print_integer() emits the alternative form of the standard if and only if prefix and places fit the
      buffer of 32 characters. */
  lemma AlternativeIsStandard(value: nat, base: nat, precision: nat, width: nat, flags: Flags)
    requires value < TWO64 && (base == 8 || base == 16) && Alternative(precision, flags)
    ensures IntegerText(value, base, false, precision, width, flags) == Alternate(value, base, precision, width, flags)
            <==> AlternateFits(value, base, precision, width, flags)
  {
    var d, fl := Digits(value, base, flags), HashKept(value, base, flags);
    var rev := Start(value, base, fl);
    StartIs(value, base, flags);
    assert rev == Start(value, base, flags);
    if fl != flags {
      PlainAgrees(rev, d, base, precision, width, flags);
    } else if base == 16 {
      HexAgrees(rev, d, precision, width, flags, Prefix(value, base, flags));
    } else if |Zeros(rev, false, precision, width, flags)| > |rev| {
      ZerosWithout(rev, precision, width, flags);
      NoMark(rev, d, base, precision, width, flags);
      PlainAgrees(rev, d, base, precision, width, flags);
    } else {
      OctalMark(rev, d, precision, width, flags);
      assert Whole(d, "", |d| + 1) == "0" + d;
    }
  }

  /** In any format, the conversions o, x and X with '#' become the alternative form of the argument they read under the
      same condition. */
  lemma DirectiveIsAlternate(c: char, f: string, va: seq<Arg>)
    requires (c == 'o' || c == 'x' || c == 'X') && Hash in Normal(c, Parse(f, va).flags)
    ensures var d := Parse(f, va);
            var fl := Normal(c, d.flags);
            var v := ValueOf(c, fl, d.va);
            && 0 <= v < TWO64
            && (IntegerField(c, d) == Alternate(v, BaseOf(c), d.precision, d.width, fl)
                <==> AlternateFits(v, BaseOf(c), d.precision, d.width, fl))
  {
    var d := Parse(f, va);
    var fl := Normal(c, d.flags);
    PrecisionComesWithFlag(f, va);
    ValueFits(c, fl, d.va);
    AlternativeIsStandard(ValueOf(c, fl, d.va), BaseOf(c), d.precision, d.width, fl);
  }
}

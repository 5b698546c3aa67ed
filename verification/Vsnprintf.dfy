/** The formatter itself: a text emitted character by character into a buffer that may be too short for it. */
module Vsnprintf {
  import opened FormatInteger
  import opened FormatText
  import opened Numbers
  import opened Seqs

  /** A buffer of maxlen characters after `text` has been emitted into it: what fits of the text, then what was
      there. */
  function Shown(before: string, text: string, maxlen: nat): string
    requires maxlen <= |before|
  {
    var n := Min(|text|, maxlen);
    text[..n] + before[n..]
  }

  class Sink {
    const buffer: array<char>
    const maxlen: nat
    ghost const before: string
    ghost var text: string

    constructor (buffer: array<char>, maxlen: nat)
      requires maxlen <= buffer.Length
      ensures Valid() && text == "" && this.buffer == buffer && this.maxlen == maxlen && before == buffer[..]
    {
      this.buffer, this.maxlen, before, text := buffer, maxlen, buffer[..], "";
    }

    ghost predicate Valid()
      reads this, buffer
    {
      maxlen <= buffer.Length == |before| && buffer[..] == Shown(before, text, maxlen)
    }

    /** The sink is ready for the character after the text. */
    ghost predicate At(idx: nat)
      reads this, buffer
    {
      Valid() && idx == |text|
    }

    /** out_buffer() */
    method Out(c: char, idx: nat) returns (idx': nat)
      requires At(idx)
      modifies this, buffer
      ensures At(idx') && text == old(text) + [c]
    {
      if idx < maxlen {
        buffer[idx] := c;
      }
      text := text + [c];
      idx' := idx + 1;
    }

    method Spaces(idx: nat, start: nat, width: nat) returns (idx': nat)
      requires At(idx)
      modifies this, buffer
      ensures At(idx') && text == old(text) + Fill(' ', width - start)
    {
      var i := start;
      idx' := idx;
      while i < width
        invariant At(idx') && i <= Max(start, width) && text == old(text) + Fill(' ', i - start)
        invariant start <= i
      {
        idx' := Out(' ', idx');
        i := i + 1;
        assert Fill(' ', i - start) == Fill(' ', i - 1 - start) + [' '];
      }
    }

    method Emit(idx: nat, s: string) returns (idx': nat)
      requires At(idx)
      modifies this, buffer
      ensures At(idx') && text == old(text) + s
    {
      var i := 0;
      idx' := idx;
      while i < |s|
        invariant At(idx') && i <= |s| && text == old(text) + s[..i]
      {
        idx' := Out(s[i], idx');
        i := i + 1;
        assert s[..i] == s[..i - 1] + [s[i - 1]];
      }
      assert s[..|s|] == s;
    }

    /** out_rev_() */
    method OutRev(idx: nat, buf: array<char>, len: nat, width: nat, flags: Flags) returns (idx': nat)
      requires At(idx) && len <= buf.Length && buf != buffer
      modifies this, buffer
      ensures At(idx') && text == old(text) + InField(Reverse(buf[..len]), width, flags)
    {
      ghost var t0, core, pad := text, Reverse(buf[..len]), Fill(' ', width - len);
      idx' := idx;
      if Left !in flags && ZeroPad !in flags {
        idx' := Spaces(idx', len, width);
        Reassociate(t0, pad, core);
      }
      idx' := Backwards(idx', buf, len);
      if Left in flags {
        idx' := Spaces(idx', len, width);
        Reassociate(t0, core, pad);
      }
    }

    method Backwards(idx: nat, buf: array<char>, len: nat) returns (idx': nat)
      requires At(idx) && len <= buf.Length && buf != buffer
      modifies this, buffer
      ensures At(idx') && text == old(text) + Reverse(buf[..len])
    {
      var n: nat := len;
      ghost var rev := buf[..len];
      idx' := idx;
      while n != 0
        invariant n <= len && At(idx') && text == old(text) + Reverse(rev)[..len - n]
      {
        n := n - 1;
        idx' := Out(buf[n], idx');
        assert Reverse(rev)[..len - n] == Reverse(rev)[..len - n - 1] + [rev[n]];
      }
      assert Reverse(rev)[..len] == Reverse(rev);
    }

    // ---------------------------------------------------------------- integers

    /** Zeros up to `upto`, as far as the buffer goes. */
    method Zero(buf: array<char>, len: nat, upto: nat) returns (len': nat)
      requires buf.Length == ROOM && len <= ROOM
      modifies buf
      ensures len' <= ROOM && buf[..len'] == ZerosTo(old(buf[..len]), upto)
    {
      len' := len;
      while len' < upto && len' < ROOM
        invariant len <= len' <= ROOM && (len' <= upto || len' == len)
        invariant buf[..len'] == old(buf[..len]) + Fill('0', len' - len)
      {
        buf[len'] := '0';
        len' := len' + 1;
        assert Fill('0', len' - len) == Fill('0', len' - 1 - len) + ['0'];
      }
    }

    /** Stores one more character, if there is room. */
    method Store(buf: array<char>, len: nat, c: char) returns (len': nat)
      requires buf.Length == ROOM && len <= ROOM
      modifies buf
      ensures len' <= ROOM && buf[..len'] == Put(old(buf[..len]), [c])
    {
      len' := len;
      if len < ROOM {
        buf[len] := c;
        len' := len + 1;
      }
    }

    method TakeBack(len: nat, unpadded: nat, base: nat, precision: nat, width: nat, flags: Flags) returns (len': nat)
      ensures len' == TakenBack(len, unpadded, base, precision, width, flags)
    {
      len' := len;
      if Precision !in flags && len' != 0 && (len' == precision || len' == width) {
        if unpadded < len' {
          len' := len' - 1;
        }
        if len' != 0 && base == 16 {
          if unpadded < len' {
            len' := len' - 1;
          }
        }
      }
    }

    /** The alternative form. */
    method Prefix(buf: array<char>, len: nat, unpadded: nat, base: nat, precision: nat, width: nat, flags: Flags)
      returns (len': nat)
      requires buf.Length == ROOM && len <= ROOM
      modifies buf
      ensures len' <= ROOM && buf[..len'] == Prefixed(old(buf[..len]), unpadded, base, precision, width, flags)
    {
      var fl := flags;
      len' := len;
      if base == 8 && len > unpadded {
        fl := fl - {Hash};
      }
      if Hash in fl || Pointer in fl {
        len' := TakeBack(len, unpadded, base, precision, width, flags);
        assert buf[..len'] == old(buf[..len])[..len'];
        if base == 16 && Upper !in fl {
          len' := Store(buf, len', 'x');
        } else if base == 16 {
          len' := Store(buf, len', 'X');
        } else if base == 2 {
          len' := Store(buf, len', 'b');
        }
        len' := Store(buf, len', '0');
      }
    }

    method StoreSign(buf: array<char>, len: nat, negative: bool, flags: Flags) returns (len': nat)
      requires buf.Length == ROOM && len <= ROOM
      modifies buf
      ensures len' <= ROOM && buf[..len'] == Put(old(buf[..len]), Sign(negative, flags))
    {
      len' := len;
      if len < ROOM {
        if negative {
          len' := Store(buf, len, '-');
        } else if Plus in flags {
          len' := Store(buf, len, '+');
        } else if Space in flags {
          len' := Store(buf, len, ' ');
        }
      }
    }

    /** print_integer_finalization() */
    method PrintIntegerFinalization(idx: nat, buf: array<char>, len: nat, negative: bool, base: nat, precision: nat,
        width: nat, flags: Flags)
      returns (idx': nat)
      requires At(idx) && buf.Length == ROOM && len <= ROOM && buf != buffer
      modifies this, buffer, buf
      ensures At(idx') && text == old(text) + Emitted(old(buf[..len]), base, negative, precision, width, flags)
    {
      ghost var digits := buf[..len];
      var n, w := len, width;
      if Left !in flags {
        if w != 0 && ZeroPad in flags && (negative || Plus in flags || Space in flags) {
          w := w - 1;
        }
        if ZeroPad in flags {
          n := Zero(buf, n, w);
        }
      }
      n := Zero(buf, n, precision);
      assert buf[..n] == Zeros(digits, negative, precision, width, flags);
      n := Prefix(buf, n, len, base, precision, w, flags);
      n := StoreSign(buf, n, negative, flags);
      assert buf[..n] == Finished(digits, base, negative, precision, width, flags);
      idx' := OutRev(idx, buf, n, w, flags);
    }

    /** print_integer() */
    method PrintInteger(idx: nat, value: nat, negative: bool, base: nat, precision: nat, width: nat, flags: Flags)
      returns (idx': nat)
      requires At(idx) && 2 <= base <= 16
      modifies this, buffer
      ensures At(idx') && text == old(text) + IntegerText(value, base, negative, precision, width, flags)
    {
      var buf := new char[ROOM];
      var len, fl, v := 0, flags, value;
      if v == 0 {
        if Precision !in fl {
          buf[0] := '0';
          len := 1;
          fl := fl - {Hash};
        } else if base == 16 {
          fl := fl - {Hash};
        }
        assert fl == HashKept(value, base, flags);
      } else {
        len := StoreDigits(buf, value, base, Upper in fl);
      }
      assert buf[..len] == Start(value, base, fl);
      idx' := PrintIntegerFinalization(idx, buf, len, negative, base, precision, width, fl);
    }

    /** The lowest digit of a value, and the value without it. */
    method LowDigit(v: nat, base: nat, upper: bool, ghost room: nat) returns (c: char, q: nat)
      requires 2 <= base <= 16 && v != 0 && room != 0
      ensures DigitsRev(v, base, upper, room) == [c] + DigitsRev(q, base, upper, room - 1)
    {
      c := DigitChar(v % base, upper);
      q := v / base;
    }

    method StoreDigits(buf: array<char>, value: nat, base: nat, upper: bool) returns (len: nat)
      requires 2 <= base <= 16
      modifies buf
      ensures len <= buf.Length && buf[..len] == DigitsRev(value, base, upper, buf.Length)
    {
      var v, c := value, '0';
      len := 0;
      ghost var done, all := "", DigitsRev(value, base, upper, buf.Length);
      ghost var rest := all;
      while v != 0 && len < buf.Length
        invariant len <= buf.Length && buf[..len] == done && done + rest == all
        invariant rest == DigitsRev(v, base, upper, buf.Length - len)
        decreases buf.Length - len
      {
        c, v := LowDigit(v, base, upper, buf.Length - len);
        rest := DigitsRev(v, base, upper, buf.Length - len - 1);
        Reassociate(done, [c], rest);
        buf[len] := c;
        done := done + [c];
        len := len + 1;
      }
      assert DigitsRev(v, base, upper, buf.Length - len) == "";
    }
  
    // ---------------------------------------------------------------- conversions

    method IntegerConversion(idx: nat, c: char, d: Directive) returns (idx': nat)
      requires At(idx) && IsInteger(c)
      modifies this, buffer
      ensures At(idx') && text == old(text) + IntegerField(c, d)
    {
      var flags, base := d.flags, 10;
      if c == 'x' || c == 'X' {
        base := 16;
      } else if c == 'o' {
        base := 8;
      } else if c == 'b' {
        base := 2;
      } else {
        flags := flags - {Hash};
      }
      if c == 'X' {
        flags := flags + {Upper};
      }
      if c != 'i' && c != 'd' {
        flags := flags - {Plus, Space};
      }
      if Precision in flags {
        flags := flags - {ZeroPad};
      }
      assert flags == Normal(c, d.flags) && base == BaseOf(c);
      var value := ValueOf(c, flags, d.va);
      idx' := PrintInteger(idx, Magnitude(value), value < 0, base, d.precision, d.width, flags);
    }

    method CharConversion(idx: nat, d: Directive) returns (idx': nat)
      requires At(idx)
      modifies this, buffer
      ensures At(idx') && text == old(text) + Padded([Unsigned(IntOf(d.va), 8) as char], d.width, Left in d.flags)
    {
      ghost var t0, core, pad := text, [Unsigned(IntOf(d.va), 8) as char], Fill(' ', d.width - 1);
      idx' := idx;
      if Left !in d.flags {
        idx' := Spaces(idx', 1, d.width);
        Reassociate(t0, pad, core);
      }
      idx' := Out(Unsigned(IntOf(d.va), 8) as char, idx');
      if Left in d.flags {
        idx' := Spaces(idx', 1, d.width);
        Reassociate(t0, core, pad);
      }
    }

    /** strnlen_s_(); a limit of -1 is none. */
    method Strnlen(p: string, limit: int) returns (n: nat)
      requires -1 <= limit
      ensures n == if limit == -1 then |p| else Min(|p|, limit)
    {
      n := 0;
      while n < |p| && n != limit
        invariant n <= |p| && (limit != -1 ==> n <= limit)
      {
        n := n + 1;
      }
    }

    method StringConversion(idx: nat, d: Directive) returns (idx': nat)
      requires At(idx) && (Precision in d.flags || d.precision == 0)
      modifies this, buffer
      ensures At(idx') && text == old(text) + StringField(d)
    {
      if d.va != [] && d.va[0].StrArg? {
        var p := d.va[0].text;
        var l := Strnlen(p, if d.precision != 0 then d.precision else -1);
        if Precision in d.flags {
          l := if l < d.precision then l else d.precision;
        }
        ghost var t0, pad := text, Fill(' ', d.width - l);
        idx' := idx;
        if Left !in d.flags {
          idx' := Spaces(idx', l, d.width);
          Reassociate(t0, pad, p[..l]);
        }
        idx' := Emit(idx', p[..l]);
        if Left in d.flags {
          idx' := Spaces(idx', l, d.width);
          Reassociate(t0, p[..l], pad);
        }
      } else {
        var nothing := new char[6](i requires 0 <= i < 6 => ")llun("[i]);
        assert Reverse(nothing[..6]) == "(null)";
        idx' := OutRev(idx, nothing, 6, d.width, d.flags);
      }
    }

    method PointerConversion(idx: nat, d: Directive) returns (idx': nat)
      requires At(idx)
      modifies this, buffer
      ensures At(idx') && text == old(text) + PointerField(d)
    {
      var flags := d.flags + {ZeroPad, Pointer};
      var value := Unsigned(AddressOf(d.va), 32);
      if value == 0 {
        var nil := new char[5](i requires 0 <= i < 5 => ")lin("[i]);
        assert Reverse(nil[..5]) == "(nil)";
        idx' := OutRev(idx, nil, 5, ADDRESS_WIDTH, flags);
      } else {
        idx' := PrintInteger(idx, value, false, 16, d.precision, ADDRESS_WIDTH, flags);
      }
    }

    method Convert(idx: nat, c: char, d: Directive) returns (idx': nat)
      requires At(idx) && (Precision in d.flags || d.precision == 0)
      modifies this, buffer
      ensures At(idx') && text == old(text) + Field(c, d)
    {
      if IsInteger(c) {
        idx' := IntegerConversion(idx, c, d);
      } else if c == 'c' {
        idx' := CharConversion(idx, d);
      } else if c == 's' {
        idx' := StringConversion(idx, d);
      } else if c == 'p' {
        idx' := PointerConversion(idx, d);
      } else {
        idx' := Out(c, idx);
      }
    }

    /** The loop over the format. */
    method Format(fmt: string, va: seq<Arg>) returns (idx: nat)
      requires At(0) && Supported(fmt, va)
      modifies this, buffer
      ensures At(idx) && text == Render(fmt, va)
    {
      idx := 0;
      var format, args := fmt, va;
      while format != ""
        invariant At(idx) && Supported(format, args) && text + Render(format, args) == Render(fmt, va)
        decreases |format|
      {
        ghost var t0, more := text, Render(format, args);
        if format[0] != '%' {
          ghost var rest := Render(format[1..], args);
          Reassociate(t0, [format[0]], rest);
          idx := Out(format[0], idx);
          format := format[1..];
        } else {
          var d := EvalDirective(format[1..], args);
          var c := d.rest[0];
          ghost var rest := Render(d.rest[1..], ArgsAfter(c, d.va));
          Reassociate(t0, Field(c, d), rest);
          PrecisionComesWithFlag(format[1..], args);
          idx := Convert(idx, c, d);
          format := d.rest[1..];
          args := ArgsAfter(c, d.va);
        }
      }
    }
  }

  // ---------------------------------------------------------------- reading the format

  method Atoi(f: string) returns (n: nat, rest: string)
    ensures (n, rest) == AtoiFrom(f, 0)
  {
    n, rest := 0, f;
    while rest != "" && IsDigit(rest[0])
      invariant n < TWO32 && AtoiFrom(rest, n) == AtoiFrom(f, 0)
      decreases |rest|
    {
      n := (n * 10 + (rest[0] - '0') as nat) % TWO32;
      rest := rest[1..];
    }
  }

  method EvalFlags(f: string, va: seq<Arg>) returns (d: Directive)
    ensures d == FlagsFrom(f, Directive({}, 0, 0, f, va))
  {
    var rest := f;
    d := Directive({}, 0, 0, f, va);
    while rest != "" && IsFlag(rest[0])
      invariant FlagsFrom(rest, d) == FlagsFrom(f, Directive({}, 0, 0, f, va))
      decreases |rest|
    {
      d := d.(flags := WithFlag(rest[0], d.flags));
      rest := rest[1..];
    }
    d := d.(rest := rest);
  }

  method EvalWidth(d: Directive) returns (r: Directive)
    ensures r == WidthFrom(d)
  {
    r := d;
    if IsDigit(Head(d.rest)) {
      var n, rest := Atoi(d.rest);
      r := d.(width := n, rest := rest);
    } else if Head(d.rest) == '*' {
      var w := Signed(IntOf(d.va), 32);
      if w < 0 {
        r := d.(flags := d.flags + {Left}, width := -w);
      } else {
        r := d.(width := w);
      }
      r := r.(rest := d.rest[1..], va := Next(d.va));
    }
  }

  method EvalPrecision(d: Directive) returns (r: Directive)
    ensures r == PrecisionFrom(d)
  {
    r := d;
    if Head(d.rest) == '.' {
      r := d.(flags := d.flags + {Precision}, rest := d.rest[1..]);
      if IsDigit(Head(r.rest)) {
        var n, rest := Atoi(r.rest);
        r := r.(precision := n, rest := rest);
      } else if Head(r.rest) == '*' {
        var p := Signed(IntOf(r.va), 32);
        r := r.(precision := if p > 0 then p else 0, rest := r.rest[1..], va := Next(r.va));
      }
    }
  }

  method EvalDirective(f: string, va: seq<Arg>) returns (d: Directive)
    ensures d == Parse(f, va)
  {
    d := EvalFlags(f, va);
    d := EvalWidth(d);
    d := EvalPrecision(d);
    d := LengthFrom(d);
  }

  // ---------------------------------------------------------------- the whole

  /** __vsnprintf() with out_buffer(): the length does not depend on the size of the buffer; a positive size leaves the
      first size - 1 characters of the full text, or all of them, and a NUL; and nothing behind that is written. */
  method VsnprintfInto(buffer: array<char>, maxlen: nat, fmt: string, va: seq<Arg>) returns (n: nat)
    requires maxlen <= buffer.Length && maxlen < TWO32 && Supported(fmt, va)
    modifies buffer
    ensures n == |Render(fmt, va)|
    ensures maxlen == 0 ==> buffer[..] == old(buffer[..])
    ensures maxlen != 0 ==>
      var m := Terminator(n, maxlen);
      buffer[..][..m] == Render(fmt, va)[..m] && buffer[m] == '\0' && buffer[..][m + 1..] == old(buffer[..])[m + 1..]
  {
    ghost var before := buffer[..];
    n := FormatInto(buffer, maxlen, fmt, va);
    Terminate(buffer, maxlen, n);
    TerminatedIs(before, Render(fmt, va), maxlen, buffer[..]);
  }

  method FormatInto(buffer: array<char>, maxlen: nat, fmt: string, va: seq<Arg>) returns (n: nat)
    requires maxlen <= buffer.Length && Supported(fmt, va)
    modifies buffer
    ensures n == |Render(fmt, va)| && buffer[..] == Shown(old(buffer[..]), Render(fmt, va), maxlen)
  {
    var sink := new Sink(buffer, maxlen);
    n := sink.Format(fmt, va);
  }

  /** Where the NUL goes. */
  function Terminator(n: nat, maxlen: nat): nat
    requires maxlen != 0
  {
    Min(n, maxlen - 1)
  }

  lemma TerminatedIs(before: string, full: string, maxlen: nat, after: string)
    requires maxlen <= |before|
    requires after == if maxlen == 0 then Shown(before, full, maxlen)
                      else Shown(before, full, maxlen)[Terminator(|full|, maxlen) := '\0']
    ensures maxlen == 0 ==> after == before
    ensures maxlen != 0 ==>
      var m := Terminator(|full|, maxlen);
      m < |after| && after[..m] == full[..m] && after[m] == '\0' && after[m + 1..] == before[m + 1..]
  {
  }

  method Terminate(buffer: array<char>, maxlen: nat, idx: nat)
    requires maxlen <= buffer.Length && maxlen < TWO32
    modifies buffer
    ensures maxlen == 0 ==> buffer[..] == old(buffer[..])
    ensures maxlen != 0 ==> buffer[..] == old(buffer[..])[Terminator(idx, maxlen) := '\0']
  {
    var at := if idx < maxlen then idx else (maxlen - 1) % TWO32;
    if at < maxlen {
      buffer[at] := '\0';
    }
  }
}

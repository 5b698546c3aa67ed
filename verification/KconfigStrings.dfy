/** String values in a configuration file: escaping, the pattern that reads them back, and the round trip. */
module KconfigStrings {
  import opened Options
  import opened Seqs

  const BACKSLASH: char := '\\'
  const QUOTE: char := '\"'

  // ---------------------------------------------------------------- escape() and unescape()

  /** str.replace() with a pattern of one character. */
  function Replace(s: string, c: char, sub: string): string {
    if s == "" then "" else (if s[0] == c then sub else [s[0]]) + Replace(s[1..], c, sub)
  }

  function Escape(s: string): string {
    Replace(Replace(s, BACKSLASH, [BACKSLASH, BACKSLASH]), QUOTE, [BACKSLASH, QUOTE])
  }

  /** A backslash followed by anything but a newline is dropped, from left to right. */
  function Unescape(s: string): string {
    if s == "" then ""
    else if s[0] == BACKSLASH && 2 <= |s| && s[1] != '\n' then [s[1]] + Unescape(s[2..])
    else [s[0]] + Unescape(s[1..])
  }

  function EscapeChar(c: char): string {
    if c == BACKSLASH || c == QUOTE then [BACKSLASH, c] else [c]
  }

  lemma {:induction false} ReplaceOfConcat(a: string, b: string, c: char, sub: string)
    ensures Replace(a + b, c, sub) == Replace(a, c, sub) + Replace(b, c, sub)
  {
    if a == "" {
      assert a + b == b;
    } else {
      ReplaceOfConcat(a[1..], b, c, sub);
      assert (a + b)[0] == a[0] && (a + b)[1..] == a[1..] + b;
      Reassociate(if a[0] == c then sub else [a[0]], Replace(a[1..], c, sub), Replace(b, c, sub));
    }
  }

  /** The two replacements, one after the other, amount to one substitution for each character: nothing that the first
      puts in is touched by the second. */
  lemma {:induction false} EscapeByChar(c: char, s: string)
    ensures Escape("") == ""
    ensures Escape([c] + s) == EscapeChar(c) + Escape(s)
  {
    var one := Replace([c], BACKSLASH, [BACKSLASH, BACKSLASH]);
    ReplaceOfConcat([c], s, BACKSLASH, [BACKSLASH, BACKSLASH]);
    ReplaceOfConcat(one, Replace(s, BACKSLASH, [BACKSLASH, BACKSLASH]), QUOTE, [BACKSLASH, QUOTE]);
    ReplaceOne(c, BACKSLASH, [BACKSLASH, BACKSLASH]);
    if c == BACKSLASH {
      ReplaceOfConcat([c], [c], QUOTE, [BACKSLASH, QUOTE]);
      assert [c] + [c] == one;
    }
    ReplaceOne(c, QUOTE, [BACKSLASH, QUOTE]);
  }

  lemma ReplaceOne(x: char, c: char, sub: string)
    ensures Replace([x], c, sub) == if x == c then sub else [x]
  {
    assert [x][1..] == "";
  }

  lemma {:induction false} EscapeOfConcat(a: string, b: string)
    ensures Escape(a + b) == Escape(a) + Escape(b)
  {
    ReplaceOfConcat(a, b, BACKSLASH, [BACKSLASH, BACKSLASH]);
    ReplaceOfConcat(Replace(a, BACKSLASH, [BACKSLASH, BACKSLASH]), Replace(b, BACKSLASH, [BACKSLASH, BACKSLASH]), QUOTE,
      [BACKSLASH, QUOTE]);
  }

  /** Every string comes back, whatever it holds. */
  lemma {:induction false} UnescapeInverts(s: string)
    ensures Unescape(Escape(s)) == s
  {
    if s != "" {
      UnescapeInverts(s[1..]);
      EscapeByChar(s[0], s[1..]);
      assert [s[0]] + s[1..] == s;
      var e := Escape(s);
      if s[0] == BACKSLASH || s[0] == QUOTE {
        assert e[2..] == Escape(s[1..]);
      } else {
        assert e[1..] == Escape(s[1..]);
      }
    }
  }

  // ---------------------------------------------------------------- the pattern of a quoted string

  /** (?:[^\\"]|\\.)* */
  ghost predicate IsBody(b: string) {
    || b == ""
    || (b[0] != BACKSLASH && b[0] != QUOTE && IsBody(b[1..]))
    || (b[0] == BACKSLASH && 2 <= |b| && b[1] != '\n' && IsBody(b[2..]))
  }

  /** The pattern matches at the start of s, and captures b. */
  ghost predicate Captures(s: string, b: string) {
    IsBody(b) && |b| + 2 <= |s| && s[0] == QUOTE && s[1..|b| + 1] == b && s[|b| + 1] == QUOTE
  }

  function Scan(s: string): Option<string> {
    if s == "" then None
    else if s[0] == QUOTE then Some("")
    else
      var n := if s[0] == BACKSLASH then 2 else 1;
      if n == 2 && (|s| < 2 || s[1] == '\n') then None else
      match Scan(s[n..])
      case None => None
      case Some(b) => Some(s[..n] + b)
  }

  function QuotedString(s: string): Option<string> {
    if s != "" && s[0] == QUOTE then Scan(s[1..]) else None
  }

  lemma {:induction false} ScanFinds(s: string)
    ensures match Scan(s) case None => true case Some(b) => IsBody(b) && |b| < |s| && s[..|b|] == b && s[|b|] == QUOTE
  {
    if Scan(s).Some? && s[0] != QUOTE {
      var n := if s[0] == BACKSLASH then 2 else 1;
      ScanFinds(s[n..]);
      var b := Scan(s[n..]).value;
      assert (s[..n] + b)[n..] == b;
    }
  }

  lemma {:induction false} ScanMissesNone(s: string, b: string)
    requires IsBody(b) && |b| < |s| && s[..|b|] == b && s[|b|] == QUOTE
    ensures Scan(s) == Some(b)
  {
    if b != "" {
      assert s[0] == b[0];
      var n := if b[0] == BACKSLASH then 2 else 1;
      assert n == 2 ==> s[1] == b[1];
      assert s[n..][..|b| - n] == b[n..];
      ScanMissesNone(s[n..], b[n..]);
      assert s[..n] + b[n..] == b;
    }
  }

  /** At most one text can be captured, and the scan finds it exactly when there is one. */
  lemma {:induction false} CaptureIsUnique(s: string)
    ensures forall b :: QuotedString(s) == Some(b) <==> Captures(s, b)
  {
    if s != "" && s[0] == QUOTE {
      var t := s[1..];
      ScanFinds(t);
      forall b ensures Scan(t) == Some(b) <==> Captures(s, b) {
        if Scan(t) == Some(b) {
          assert s[1..|b| + 1] == t[..|b|];
        }
        if Captures(s, b) {
          assert t[..|b|] == s[1..|b| + 1];
          ScanMissesNone(t, b);
        }
      }
    }
  }

  lemma {:induction false} EscapedIsBody(s: string)
    ensures IsBody(Escape(s))
  {
    if s != "" {
      EscapedIsBody(s[1..]);
      EscapeByChar(s[0], s[1..]);
      assert [s[0]] + s[1..] == s;
      var e := Escape(s);
      if s[0] == BACKSLASH || s[0] == QUOTE {
        assert e[2..] == Escape(s[1..]);
      } else {
        assert e[1..] == Escape(s[1..]);
      }
    }
  }

  /** Without a closing quote there is no match, and escaped text never closes the quotes by itself. */
  lemma {:induction false} EscapedStaysOpen(s: string)
    ensures Scan(Escape(s)) == None
  {
    if s != "" {
      EscapedStaysOpen(s[1..]);
      EscapeByChar(s[0], s[1..]);
      assert [s[0]] + s[1..] == s;
      var e := Escape(s);
      if s[0] == BACKSLASH || s[0] == QUOTE {
        assert e[2..] == Escape(s[1..]);
      } else {
        assert e[1..] == Escape(s[1..]);
      }
    }
  }

  // ---------------------------------------------------------------- one line of the file

  /** config_string of a string symbol. */
  function ConfigString(prefix: string, name: string, val: string): string {
    prefix + name + "=" + [QUOTE] + Escape(val) + [QUOTE] + "\n"
  }

  predicate EndsLine(c: char) { c == '\n' || c == '\r' }

  /** The first line of a text, as a file opened in text mode hands it out, without its end. */
  function FirstLine(text: string): string {
    if text == "" || EndsLine(text[0]) then "" else [text[0]] + FirstLine(text[1..])
  }

  /** str.rstrip(), for a given notion of white space. */
  function RStrip(s: string, space: set<char>): string {
    if s != "" && s[|s| - 1] in space then RStrip(s[..|s| - 1], space) else s
  }

  /** The text before the first '=', if there is one. */
  function BeforeEqual(s: string): Option<string> {
    if s == "" then None
    else if s[0] == '=' then Some("")
    else
      match BeforeEqual(s[1..])
      case None => None
      case Some(t) => Some([s[0]] + t)
  }

  datatype Assignment = Assignment(name: string, val: string)

  /** The pattern of an assignment: the prefix, a name, '=', and the rest of the line. */
  function SetMatch(prefix: string, line: string): Option<Assignment> {
    if !(prefix <= line) then None else
    var rest := line[|prefix|..];
    match BeforeEqual(rest)
    case None => None
    case Some(name) =>
      if name == "" || |rest| <= |name| then None else Some(Assignment(name, rest[|name| + 1..]))
  }

  /** What loading makes of the first line of a text that assigns to a string symbol: its name and its new value. */
  function LoadLine(prefix: string, text: string, space: set<char>): Option<Assignment> {
    match SetMatch(prefix, RStrip(FirstLine(text), space))
    case None => None
    case Some(a) =>
      match QuotedString(a.val)
      case None => None
      case Some(b) => Some(Assignment(a.name, Unescape(b)))
  }

  predicate OneLine(s: string) {
    forall i :: 0 <= i < |s| ==> !EndsLine(s[i])
  }

  lemma {:induction false} FirstLineOfConcat(a: string, b: string)
    requires OneLine(a)
    ensures FirstLine(a + b) == a + FirstLine(b)
  {
    if a == "" {
      assert a + b == b;
    } else {
      FirstLineOfConcat(a[1..], b);
      assert (a + b)[1..] == a[1..] + b;
    }
  }

  lemma {:induction false} EscapeKeepsOneLine(s: string)
    requires OneLine(s)
    ensures OneLine(Escape(s))
  {
    if s != "" {
      EscapeKeepsOneLine(s[1..]);
      EscapeByChar(s[0], s[1..]);
      assert [s[0]] + s[1..] == s;
    }
  }

  lemma {:induction false} BeforeEqualOfConcat(a: string, b: string)
    requires '=' !in a
    ensures BeforeEqual(a + "=" + b) == Some(a)
  {
    if a != "" {
      BeforeEqualOfConcat(a[1..], b);
      assert (a + "=" + b)[1..] == a[1..] + "=" + b;
      assert a[0] in a && [a[0]] + a[1..] == a;
    }
  }

  lemma {:induction false} RStripOfConcat(a: string, b: string, space: set<char>)
    requires a != "" && a[|a| - 1] !in space
    ensures RStrip(a + b, space) == a + RStrip(b, space)
  {
    if b == "" {
      assert a + b == a;
    } else if b[|b| - 1] in space {
      RStripOfConcat(a, b[..|b| - 1], space);
      assert (a + b)[..|a + b| - 1] == a + b[..|b| - 1];
    } else {
      assert (a + b)[|a + b| - 1] == b[|b| - 1];
    }
  }

  /** White space is not escaped, so stripping the escaped text strips the text. */
  lemma {:induction false} RStripOfEscape(s: string, space: set<char>)
    requires BACKSLASH !in space && QUOTE !in space
    ensures RStrip(Escape(s), space) == Escape(RStrip(s, space))
    decreases |s|
  {
    if s != "" {
      var n := |s| - 1;
      var c := s[n];
      assert s == s[..n] + [c];
      EscapeOfConcat(s[..n], [c]);
      EscapeByChar(c, "");
      assert [c] + "" == [c];
      var e := Escape(s);
      assert e[|e| - 1] == c;
      if c in space {
        RStripOfEscape(s[..n], space);
        assert e[..|e| - 1] == Escape(s[..n]);
      }
    }
  }

  /** What follows the name on a line. */
  lemma MatchLine(prefix: string, name: string, v: string)
    requires name != "" && '=' !in name
    ensures SetMatch(prefix, prefix + name + "=" + v) == Some(Assignment(name, v))
  {
    var line := prefix + name + "=" + v;
    assert line[|prefix|..] == name + "=" + v;
    BeforeEqualOfConcat(name, v);
    assert (name + "=" + v)[|name| + 1..] == v;
  }

  /** The first line of what config_string wrote, if the value is on one line. */
  lemma WholeLine(prefix: string, name: string, val: string, quoted: string)
    requires OneLine(prefix) && OneLine(name) && OneLine(val) && quoted == [QUOTE] + Escape(val) + [QUOTE]
    ensures FirstLine(ConfigString(prefix, name, val)) == prefix + name + "=" + quoted
  {
    var line := prefix + name + "=" + quoted;
    EscapeKeepsOneLine(val);
    assert ConfigString(prefix, name, val) == line + "\n";
    FirstLineOfConcat(line, "\n");
    assert FirstLine("\n") == "" && line + "" == line;
  }

  lemma QuotedComesBack(e: string)
    requires IsBody(e)
    ensures QuotedString([QUOTE] + e + [QUOTE]) == Some(e)
  {
    var quoted := [QUOTE] + e + [QUOTE];
    assert quoted[1..][..|e|] == e;
    ScanMissesNone(quoted[1..], e);
  }

  /** A value on one line comes back from what config_string wrote. */
  lemma OneLineComesBack(prefix: string, name: string, val: string, space: set<char>)
    requires name != "" && '=' !in name && OneLine(prefix) && OneLine(name)
    requires BACKSLASH !in space && QUOTE !in space
    requires OneLine(val)
    ensures LoadLine(prefix, ConfigString(prefix, name, val), space) == Some(Assignment(name, val))
  {
    var quoted := [QUOTE] + Escape(val) + [QUOTE];
    WholeLine(prefix, name, val, quoted);
    assert RStrip(prefix + name + "=" + quoted, space) == prefix + name + "=" + quoted;
    MatchLine(prefix, name, quoted);
    EscapedIsBody(val);
    QuotedComesBack(Escape(val));
    UnescapeInverts(val);
  }

  /** The first line of what config_string wrote, if the value has a line break at k. */
  lemma BrokenLine(prefix: string, name: string, val: string, k: nat, head: string)
    requires OneLine(prefix) && OneLine(name) && head == prefix + name + "=" + [QUOTE]
    requires k < |val| && OneLine(val[..k]) && EndsLine(val[k])
    ensures FirstLine(ConfigString(prefix, name, val)) == head + Escape(val[..k])
  {
    var kept, cut := val[..k], val[k..];
    var tail := Escape(cut) + [QUOTE] + "\n";
    assert kept + cut == val;
    EscapeOfConcat(kept, cut);
    EscapeKeepsOneLine(kept);
    EscapeByChar(val[k], val[k + 1..]);
    assert [val[k]] + val[k + 1..] == cut;
    assert FirstLine(tail) == "";
    assert ConfigString(prefix, name, val) == head + Escape(kept) + tail;
    FirstLineOfConcat(head + Escape(kept), tail);
  }

  /** A value with a line break in it is cut before the closing quote, and the line is rejected. */
  lemma BrokenIsRejected(prefix: string, name: string, val: string, k: nat, space: set<char>)
    requires name != "" && '=' !in name && OneLine(prefix) && OneLine(name)
    requires BACKSLASH !in space && QUOTE !in space
    requires k < |val| && OneLine(val[..k]) && EndsLine(val[k])
    ensures LoadLine(prefix, ConfigString(prefix, name, val), space) == None
  {
    var kept, head := val[..k], prefix + name + "=" + [QUOTE];
    BrokenLine(prefix, name, val, k, head);
    RStripOfConcat(head, Escape(kept), space);
    RStripOfEscape(kept, space);
    var left := Escape(RStrip(kept, space));
    assert head + left == prefix + name + "=" + ([QUOTE] + left);
    MatchLine(prefix, name, [QUOTE] + left);
    assert ([QUOTE] + left)[1..] == left;
    EscapedStaysOpen(RStrip(kept, space));
  }

  lemma {:induction false} FirstBreak(s: string) returns (k: nat)
    requires !OneLine(s)
    ensures k < |s| && EndsLine(s[k]) && OneLine(s[..k])
  {
    if EndsLine(s[0]) {
      k := 0;
    } else {
      assert !OneLine(s[1..]) by {
        var i :| 0 <= i < |s| && EndsLine(s[i]);
        assert s[1..][i - 1] == s[i];
      }
      var j := FirstBreak(s[1..]);
      k := j + 1;
    }
  }

  /** String values survive the file exactly when they hold no line break. */
  lemma FileRoundTrip(prefix: string, name: string, val: string, space: set<char>)
    requires name != "" && '=' !in name && OneLine(prefix) && OneLine(name)
    requires BACKSLASH !in space && QUOTE !in space
    ensures LoadLine(prefix, ConfigString(prefix, name, val), space) == Some(Assignment(name, val)) <==> OneLine(val)
  {
    if OneLine(val) {
      OneLineComesBack(prefix, name, val, space);
    } else {
      var k := FirstBreak(val);
      BrokenIsRejected(prefix, name, val, k, space);
    }
  }
}

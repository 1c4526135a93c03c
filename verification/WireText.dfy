/** Text pieces of the wire format: hexadecimal fields, separated fields and lines. */
module WireText {
  import opened Bytes

  // ---- Hexadecimal ----

  const DIGITS: string := "0123456789abcdef"

  function HexDigit(n: nat): char
    requires n < 16
  {
    DIGITS[n]
  }

  /** Both cases are read, only lower case is written. */
  function HexValue(c: char): Option<nat> {
    if '0' <= c <= '9' then Some(c as int - '0' as int)
    else if 'a' <= c <= 'f' then Some(c as int - 'a' as int + 10)
    else if 'A' <= c <= 'F' then Some(c as int - 'A' as int + 10)
    else None
  }

  lemma HexDigitValue(n: nat)
    requires n < 16
    ensures HexValue(HexDigit(n)) == Some(n)
  {
  }

  function HexOf(b: Bytes): string {
    if b == [] then "" else [HexDigit(b[0] / 16), HexDigit(b[0] % 16)] + HexOf(b[1..])
  }

  /** None for an odd length or a character that is no hexadecimal digit. */
  function Unhex(s: string): Option<Bytes> {
    if s == "" then Some([])
    else if |s| == 1 then None
    else
      var high, low, rest := HexValue(s[0]), HexValue(s[1]), Unhex(s[2..]);
      if high.None? || low.None? || rest.None? || high.value >= 16 || low.value >= 16 then None
      else Some([(16 * high.value + low.value) as Byte] + rest.value)
  }

  lemma {:induction false} UnhexHex(b: Bytes)
    ensures Unhex(HexOf(b)) == Some(b)
    ensures forall c :: c in HexOf(b) ==> c in DIGITS
  {
    if b != [] {
      UnhexHex(b[1..]);
      HexDigitValue(b[0] / 16);
      HexDigitValue(b[0] % 16);
      assert HexOf(b)[2..] == HexOf(b[1..]);
      assert b == [b[0]] + b[1..];
    }
  }

  // ---- Fields ----

  function Split(s: string, sep: char): (r: seq<string>)
    ensures r != []
    ensures forall part :: part in r ==> sep !in part
  {
    if s == "" then [""]
    else
      var r := Split(s[1..], sep);
      if s[0] == sep then [""] + r
      else
        assert forall c :: c in [s[0]] + r[0] ==> c == s[0] || c in r[0];
        [[s[0]] + r[0]] + r[1..]
  }

  function Join(parts: seq<string>, sep: char): string
    requires parts != []
  {
    if |parts| == 1 then parts[0] else parts[0] + [sep] + Join(parts[1..], sep)
  }

  lemma {:induction false} SplitAtSeparator(a: string, sep: char, rest: string)
    requires sep !in a
    ensures Split(a + [sep] + rest, sep) == [a] + Split(rest, sep)
  {
    if a == "" {
      assert ("" + [sep] + rest)[1..] == rest;
    } else {
      var s := a + [sep] + rest;
      assert s[0] == a[0] && s[1..] == a[1..] + [sep] + rest;
      assert a[0] in a;
      forall c | c in a[1..] ensures c in a {}
      SplitAtSeparator(a[1..], sep, rest);
      assert [a[0]] + a[1..] == a;
    }
  }

  lemma {:induction false} SplitNothing(a: string, sep: char)
    requires sep !in a
    ensures Split(a, sep) == [a]
  {
    if a != "" {
      assert a[0] in a;
      forall c | c in a[1..] ensures c in a {}
      SplitNothing(a[1..], sep);
      assert [a[0]] + a[1..] == a;
    }
  }

  /** Fields free of the separator are recovered. */
  lemma {:induction false} SplitJoin(parts: seq<string>, sep: char)
    requires parts != [] && forall part :: part in parts ==> sep !in part
    ensures Split(Join(parts, sep), sep) == parts
  {
    assert parts[0] in parts;
    if |parts| == 1 {
      SplitNothing(parts[0], sep);
    } else {
      forall part | part in parts[1..] ensures part in parts {}
      SplitJoin(parts[1..], sep);
      SplitAtSeparator(parts[0], sep, Join(parts[1..], sep));
    }
  }

  // ---- Lines ----

  /** The characters at which `str.splitlines` breaks. */
  predicate IsBreak(c: char) {
    c in {'\n', '\r', '\U{0B}', '\U{0C}', '\U{1C}', '\U{1D}', '\U{1E}', '\U{85}', '\U{2028}', '\U{2029}'}
  }

  predicate NoBreak(s: string) { forall i :: 0 <= i < |s| ==> !IsBreak(s[i]) }

  function FirstBreak(s: string): (i: nat)
    ensures i <= |s| && NoBreak(s[..i]) && (i < |s| ==> IsBreak(s[i]))
  {
    if s == "" || IsBreak(s[0]) then 0
    else
      var i := FirstBreak(s[1..]) + 1;
      assert s[..i] == [s[0]] + s[1..][..i - 1];
      i
  }

  function SplitLines(s: string): seq<string>
    decreases |s|
  {
    if s == "" then []
    else
      var i := FirstBreak(s);
      if i == |s| then [s]
      else
        var next := if s[i] == '\r' && i + 1 < |s| && s[i + 1] == '\n' then i + 2 else i + 1;
        [s[..i]] + SplitLines(s[next..])
  }

  /** "\n".join(lines) + "\n" */
  function Terminated(lines: seq<string>): string {
    if lines == [] then "" else lines[0] + "\n" + Terminated(lines[1..])
  }

  lemma {:induction false} FirstBreakOf(a: string, rest: string)
    requires NoBreak(a)
    ensures FirstBreak(a + "\n" + rest) == |a|
  {
    var s := a + "\n" + rest;
    if a != "" {
      assert s[0] == a[0] && s[1..] == a[1..] + "\n" + rest;
      FirstBreakOf(a[1..], rest);
    }
  }

  lemma SplitFirstLine(a: string, rest: string)
    requires NoBreak(a)
    ensures SplitLines(a + "\n" + rest) == [a] + SplitLines(rest)
  {
    hide NoBreak;
    FirstBreakOf(a, rest);
    NewlineAt(a, rest);
  }

  lemma NewlineAt(a: string, rest: string)
    ensures var s := a + "\n" + rest; s != "" && s[..|a|] == a && s[|a| + 1..] == rest && s[|a|] == '\n'
  {
  }

  /** Lines without breaks are recovered. */
  lemma {:induction false} SplitLinesTerminated(lines: seq<string>)
    requires forall k :: 0 <= k < |lines| ==> NoBreak(lines[k])
    ensures SplitLines(Terminated(lines)) == lines
  {
    hide NoBreak, FirstBreak;
    if lines != [] {
      hide SplitLines;
      SplitLinesTerminated(lines[1..]);
      SplitFirstLine(lines[0], Terminated(lines[1..]));
      assert lines == [lines[0]] + lines[1..];
    }
  }

  predicate EndsWithNewline(s: string) { s != "" && s[|s| - 1] == '\n' }

  lemma {:induction false} TerminatedEnds(lines: seq<string>)
    requires lines != []
    ensures EndsWithNewline(Terminated(lines))
  {
    if |lines| == 1 {
      assert Terminated(lines) == lines[0] + "\n" + "";
    } else {
      TerminatedEnds(lines[1..]);
    }
  }
}

/** The pending-minutes log: an ascending set of minutes in memory and its text on disk. */
module PendingLog {
  import opened Prelude

  const I64_MIN := -0x8000_0000_0000_0000
  const I64_MAX := 0x7fff_ffff_ffff_ffff

  predicate IsI64(v: int) { I64_MIN <= v <= I64_MAX }

  // ---- Numbers as text -----------------------------------------------------------------------

  predicate IsDigit(c: char) { '0' <= c <= '9' }

  function Digit(d: nat): char
    requires d < 10
  {
    '0' + d as char
  }

  function Decimal(n: nat): string {
    if n < 10 then [Digit(n)] else Decimal(n / 10) + [Digit(n % 10)]
  }

  function Display(v: int): string {
    if v < 0 then "-" + Decimal(-v) else Decimal(v)
  }

  predicate AllDigits(s: string) {
    forall i | 0 <= i < |s| :: IsDigit(s[i])
  }

  function Value(s: string): int
    requires AllDigits(s)
  {
    if s == "" then 0 else Value(s[..|s| - 1]) * 10 + (s[|s| - 1] - '0') as int
  }

  /** An optional sign and at least one digit, with a value that fits. */
  function ParseI64(s: string): Option<int> {
    var negative := s != "" && s[0] == '-';
    var digits := if s != "" && (s[0] == '-' || s[0] == '+') then s[1..] else s;
    if digits == "" || !AllDigits(digits) then None
    else
      var v: int := if negative then -Value(digits) else Value(digits);
      if IsI64(v) then Some(v) else None
  }

  lemma {:induction false} DecimalValue(n: nat)
    ensures Decimal(n) != "" && AllDigits(Decimal(n)) && Value(Decimal(n)) == n
  {
    if n < 10 {
      assert Decimal(n)[..0] == "";
    } else {
      DecimalValue(n / 10);
      var front := Decimal(n / 10);
      assert Decimal(n)[..|front|] == front;
    }
  }

  lemma ParseDisplay(v: int)
    requires IsI64(v)
    ensures ParseI64(Display(v)) == Some(v)
  {
    DecimalValue(Abs(v));
    if v < 0 {
      assert Display(v)[1..] == Decimal(-v);
    }
  }

  // ---- Which texts are numbers ---------------------------------------------------------------

  function Zeros(n: nat): string { if n == 0 then "" else Zeros(n - 1) + "0" }

  /** The number without a sign, after any zeros. */
  ghost predicate Padded(digits: string, n: nat) {
    exists zeros: nat :: digits == Zeros(zeros) + Decimal(n)
  }

  /** A plus sign may stand before a number that is not negative, a minus sign must before one that is; zero takes
    * either. */
  ghost predicate Spells(s: string, v: int) {
    || (v >= 0 && Padded(s, v))
    || (v >= 0 && s != "" && s[0] == '+' && Padded(s[1..], v))
    || (v <= 0 && s != "" && s[0] == '-' && Padded(s[1..], -v))
  }

  lemma ValueSnoc(front: string, c: char)
    requires AllDigits(front) && IsDigit(c)
    ensures AllDigits(front + [c]) && Value(front + [c]) == Value(front) * 10 + (c - '0') as int
  {
    assert (front + [c])[..|front|] == front;
  }

  lemma {:induction false} ZerosValue(n: nat)
    ensures AllDigits(Zeros(n)) && Value(Zeros(n)) == 0
  {
    if n > 0 {
      ZerosValue(n - 1);
      ValueSnoc(Zeros(n - 1), '0');
    }
  }

  lemma {:induction false} PaddedValue(zeros: nat, n: nat)
    ensures
      var digits := Zeros(zeros) + Decimal(n);
      digits != "" && AllDigits(digits) && Value(digits) == n
  {
    if n < 10 {
      ZerosValue(zeros);
      ValueSnoc(Zeros(zeros), Digit(n));
    } else {
      PaddedValue(zeros, n / 10);
      ValueSnoc(Zeros(zeros) + Decimal(n / 10), Digit(n % 10));
      Associative(Zeros(zeros), Decimal(n / 10), [Digit(n % 10)]);
    }
  }

  lemma DecimalSnoc(n: nat, d: nat)
    requires n > 0 && d < 10
    ensures Decimal(n * 10 + d) == Decimal(n) + [Digit(d)]
  {
    assert (n * 10 + d) / 10 == n && (n * 10 + d) % 10 == d;
  }

  lemma PaddedSnoc(front: string, n: nat, d: nat)
    requires Padded(front, n) && d < 10
    ensures Padded(front + [Digit(d)], n * 10 + d)
  {
    var zeros: nat :| front == Zeros(zeros) + Decimal(n);
    if n == 0 {
      assert front == Zeros(zeros + 1);
      assert front + [Digit(d)] == Zeros(zeros + 1) + Decimal(d);
    } else {
      DecimalSnoc(n, d);
      Associative(Zeros(zeros), Decimal(n), [Digit(d)]);
    }
  }

  lemma {:induction false} ValueOfDigits(digits: string)
    requires digits != "" && AllDigits(digits)
    ensures Value(digits) >= 0 && Padded(digits, Value(digits))
  {
    var n := |digits| - 1;
    var front, d := digits[..n], (digits[n] - '0') as int;
    assert digits == front + [Digit(d)];
    ValueSnoc(front, Digit(d));
    if n == 0 {
      assert front == "" && digits == Zeros(0) + Decimal(d);
    } else {
      ValueOfDigits(front);
      PaddedSnoc(front, Value(front), d);
    }
  }

  lemma DigitsSpell(digits: string, n: nat)
    ensures Padded(digits, n) <==> digits != "" && AllDigits(digits) && Value(digits) == n
  {
    if Padded(digits, n) {
      var zeros: nat :| digits == Zeros(zeros) + Decimal(n);
      PaddedValue(zeros, n);
    }
    if digits != "" && AllDigits(digits) && Value(digits) == n {
      ValueOfDigits(digits);
    }
  }

  /** Exactly the texts that parse, and to what: an optional sign, any zeros and the number, if it fits. */
  lemma ParsesExactly(s: string, v: int)
    ensures ParseI64(s) == Some(v) <==> IsI64(v) && Spells(s, v)
  {
    DigitsSpell(s, Abs(v));
    if s != "" && (s[0] == '-' || s[0] == '+') {
      assert !IsDigit(s[0]) && !AllDigits(s);
      DigitsSpell(s[1..], Abs(v));
      NotNegative(s[1..]);
    } else {
      NotNegative(s);
    }
  }

  lemma NotNegative(digits: string)
    ensures digits != "" && AllDigits(digits) ==> Value(digits) >= 0
  {
    if digits != "" && AllDigits(digits) {
      ValueOfDigits(digits);
    }
  }

  // ---- Lines ---------------------------------------------------------------------------------

  /** The White_Space property of Unicode. */
  predicate IsWhitespace(c: char) {
    || '\U{9}' <= c <= '\U{D}' || c == ' ' || c == '\U{85}' || c == '\U{A0}' || c == '\U{1680}'
    || '\U{2000}' <= c <= '\U{200A}' || c == '\U{2028}' || c == '\U{2029}' || c == '\U{202F}'
    || c == '\U{205F}' || c == '\U{3000}'
  }

  function TrimStart(s: string): string {
    if s != "" && IsWhitespace(s[0]) then TrimStart(s[1..]) else s
  }

  function TrimEnd(s: string): string {
    if s != "" && IsWhitespace(s[|s| - 1]) then TrimEnd(s[..|s| - 1]) else s
  }

  function Trim(s: string): string { TrimEnd(TrimStart(s)) }

  /** How many characters come before the first line feed. */
  function LineEnd(s: string): (n: nat)
    ensures n <= |s| && (forall i | 0 <= i < n :: s[i] != '\n') && (n < |s| ==> s[n] == '\n')
  {
    if s == "" || s[0] == '\n' then 0 else 1 + LineEnd(s[1..])
  }

  function StripCr(s: string): string {
    if s != "" && s[|s| - 1] == '\r' then s[..|s| - 1] else s
  }

  function Lines(s: string): seq<string> {
    if s == "" then []
    else
      var n := LineEnd(s);
      if n == |s| then [s] else [StripCr(s[..n])] + Lines(s[n + 1..])
  }

  /** The minute a line holds; blank and unparsable lines hold none. */
  function ParseLine(line: string): Option<int> {
    var trimmed := Trim(line);
    if trimmed == "" then None else ParseI64(trimmed)
  }

  function ParseLines(lines: seq<string>): set<int> {
    if lines == [] then {}
    else ParseLines(lines[1..]) + match ParseLine(lines[0]) case None => {} case Some(v) => {v}
  }

  function Parse(contents: string): set<int> { ParseLines(Lines(contents)) }

  function Serialize(minutes: seq<int>): string {
    if minutes == [] then "" else Serialize(minutes[..|minutes| - 1]) + Display(minutes[|minutes| - 1]) + "\n"
  }

  function Elements(minutes: seq<int>): set<int> {
    if minutes == [] then {} else Elements(minutes[..|minutes| - 1]) + {minutes[|minutes| - 1]}
  }

  ghost predicate Complete(s: string) {
    s == "" || s[|s| - 1] == '\n'
  }

  ghost predicate OneLine(s: string) {
    forall i | 0 <= i < |s| :: s[i] != '\n'
  }

  lemma {:induction false} LineEndOf(line: string, rest: string)
    requires OneLine(line)
    ensures LineEnd(line + "\n" + rest) == |line|
  {
    var s := line + "\n" + rest;
    if line != "" {
      LineEndOf(line[1..], rest);
      assert s[1..] == line[1..] + "\n" + rest;
    }
  }

  lemma FirstLine(line: string, rest: string)
    requires OneLine(line)
    ensures Lines(line + "\n" + rest) == [StripCr(line)] + Lines(rest)
  {
    var s := line + "\n" + rest;
    LineEndOf(line, rest);
    assert s[..|line|] == line && s[|line| + 1..] == rest;
  }

  lemma SplitFirstLine(a: string) returns (line: string, rest: string)
    requires a != "" && Complete(a)
    ensures a == line + "\n" + rest && OneLine(line) && Complete(rest) && |rest| < |a|
  {
    var n := LineEnd(a);
    line, rest := a[..n], a[n + 1..];
  }

  /** Whole lines are read before the rest. */
  lemma {:induction false} LinesConcat(a: string, b: string)
    requires Complete(a)
    ensures Lines(a + b) == Lines(a) + Lines(b)
    decreases |a|
  {
    if a == "" {
      assert a + b == b;
    } else {
      var line, rest := SplitFirstLine(a);
      calc {
        Lines(a + b);
        { assert a + b == line + "\n" + (rest + b); FirstLine(line, rest + b); }
        [StripCr(line)] + Lines(rest + b);
        { LinesConcat(rest, b); }
        [StripCr(line)] + (Lines(rest) + Lines(b));
        ([StripCr(line)] + Lines(rest)) + Lines(b);
        { FirstLine(line, rest); }
        Lines(a) + Lines(b);
      }
    }
  }

  lemma {:induction false} ParseConcat(xs: seq<string>, ys: seq<string>)
    ensures ParseLines(xs + ys) == ParseLines(xs) + ParseLines(ys)
  {
    if xs == [] {
      assert xs + ys == ys;
    } else {
      assert (xs + ys)[1..] == xs[1..] + ys;
      ParseConcat(xs[1..], ys);
    }
  }

  // ---- The two promises of the format --------------------------------------------------------

  lemma DisplayLine(v: int)
    requires IsI64(v)
    ensures OneLine(Display(v)) && StripCr(Display(v)) == Display(v) && ParseLine(Display(v)) == Some(v)
  {
    DecimalValue(Abs(v));
    var s := Display(v);
    assert s != "" && (s[0] == '-' || IsDigit(s[0]));
    assert forall i | 0 < i < |s| :: IsDigit(s[i]);
    assert IsDigit(s[|s| - 1]);
    assert TrimStart(s) == s && TrimEnd(s) == s;
    ParseDisplay(v);
  }

  lemma WholeLine(line: string)
    requires OneLine(line)
    ensures Lines(line + "\n") == [StripCr(line)]
  {
    FirstLine(line, "");
    assert line + "\n" + "" == line + "\n";
    assert [StripCr(line)] + [] == [StripCr(line)];
  }

  lemma AppendLine(front: string, v: int)
    requires Complete(front) && IsI64(v)
    ensures Complete(front + Display(v) + "\n") && Parse(front + Display(v) + "\n") == Parse(front) + {v}
  {
    var line := Display(v);
    DisplayLine(v);
    Associative(front, line, "\n");
    WholeLine(line);
    LinesConcat(front, line + "\n");
    ParseConcat(Lines(front), [line]);
    SingleLine(line);
  }

  /** Loading what was saved gives the same minutes, for every finite set of 64-bit values. */
  lemma {:induction false} LoadSaved(minutes: seq<int>)
    requires forall i | 0 <= i < |minutes| :: IsI64(minutes[i])
    ensures Complete(Serialize(minutes)) && Parse(Serialize(minutes)) == Elements(minutes)
  {
    if minutes != [] {
      var n := |minutes| - 1;
      LoadSaved(minutes[..n]);
      AppendLine(Serialize(minutes[..n]), minutes[n]);
    }
  }

  lemma SingleLine(line: string)
    ensures ParseLines([line]) == match ParseLine(line) case None => {} case Some(v) => {v}
  {
    assert [line][1..] == [];
  }

  /** A last line counts too when nothing ends it. */
  lemma {:induction false} LastLine(front: string, line: string)
    requires Complete(front) && OneLine(line)
    ensures Parse(front + line)
         == Parse(front) + if ParseLine(line).Some? then {ParseLine(line).value} else {}
  {
    ParseAfter(front, line);
    if line != "" {
      UnendedLine(line);
      SingleLine(line);
    }
  }

  lemma {:induction false} UnendedLine(line: string)
    requires OneLine(line)
    ensures LineEnd(line) == |line|
    ensures line != "" ==> Lines(line) == [line]
  {
    if line != "" {
      UnendedLine(line[1..]);
    }
  }

  lemma JunkFirst(junk: string, after: string)
    requires OneLine(junk) && ParseLine(StripCr(junk)) == None
    ensures Parse(junk + "\n" + after) == Parse(after)
  {
    FirstLine(junk, after);
    ParseConcat([StripCr(junk)], Lines(after));
    SingleLine(StripCr(junk));
  }

  lemma ParseAfter(before: string, rest: string)
    requires Complete(before)
    ensures Parse(before + rest) == Parse(before) + Parse(rest)
  {
    LinesConcat(before, rest);
    ParseConcat(Lines(before), Lines(rest));
  }

  /** A blank or unparsable line between the lines of a log does not change what is loaded. */
  lemma JunkLineIgnored(before: string, junk: string, after: string)
    requires Complete(before) && OneLine(junk)
    requires ParseLine(StripCr(junk)) == None
    ensures Parse(before + (junk + "\n") + after) == Parse(before + after)
  {
    Associative(before, junk + "\n", after);
    ParseAfter(before, junk + "\n" + after);
    JunkFirst(junk, after);
    ParseAfter(before, after);
  }

  ghost predicate Blank(s: string) {
    forall i | 0 <= i < |s| :: IsWhitespace(s[i])
  }

  lemma SpacesAreBlank(s: string)
    requires forall i | 0 <= i < |s| :: s[i] == ' ' || s[i] == '\t' || s[i] == '\r'
    ensures Blank(s)
  {
  }

  lemma {:induction false} TrimStartBlank(pad: string, s: string)
    requires Blank(pad) && s != "" && !IsWhitespace(s[0])
    ensures TrimStart(pad + s) == s
  {
    if pad == "" {
      assert pad + s == s;
    } else {
      assert (pad + s)[1..] == pad[1..] + s;
      TrimStartBlank(pad[1..], s);
    }
  }

  lemma {:induction false} TrimEndBlank(s: string, pad: string)
    requires Blank(pad) && s != "" && !IsWhitespace(s[|s| - 1])
    ensures TrimEnd(s + pad) == s
  {
    if pad == "" {
      assert s + pad == s;
    } else {
      var n := |pad| - 1;
      assert (s + pad)[..|s + pad| - 1] == s + pad[..n];
      TrimEndBlank(s, pad[..n]);
    }
  }

  /** Space around a number is ignored. */
  lemma PaddedLine(before: string, v: int, after: string)
    requires IsI64(v) && Blank(before) && Blank(after)
    ensures ParseLine(before + Display(v) + after) == Some(v)
  {
    DecimalValue(Abs(v));
    var s := Display(v);
    assert s[0] == '-' || IsDigit(s[0]);
    assert IsDigit(s[|s| - 1]);
    Associative(before, s, after);
    TrimStartBlank(before, s + after);
    TrimEndBlank(s, after);
    ParseDisplay(v);
  }

  lemma {:induction false} BlankTrims(s: string)
    requires Blank(s)
    ensures TrimStart(s) == ""
  {
    if s != "" {
      BlankTrims(s[1..]);
    }
  }

  /** A line of space holds no minute, whatever kinds of space. */
  lemma BlankLine(s: string)
    requires Blank(s)
    ensures ParseLine(s) == None
  {
    BlankTrims(s);
  }
}

/** Line-level text handling of the configuration reader. */
module ConfigText {
  import opened TextTools

  datatype Scalar = Text(text: string) | Flag(on: bool) | Null

  function LeadingBlanks(s: string): (n: nat)
    ensures n <= |s|
  {
    if s != [] && s[0] == ' ' then 1 + LeadingBlanks(s[1..]) else 0
  }

  function ParseScalar(value: string): Scalar {
    var normalized := Strip(value);
    if normalized in {"true", "True", "yes", "Yes"} then Flag(true)
    else if normalized in {"false", "False", "no", "No"} then Flag(false)
    else if normalized in {"null", "Null", "~"} then Null
    else if |normalized| >= 2 && normalized[0] == normalized[|normalized| - 1] && normalized[0] in {'\'', '"'} then
      Text(normalized[1..|normalized| - 1])
    else Text(normalized)
  }

  datatype LineError = BadIndentation | MissingColon | MissingKey

  datatype Line = Blank | Entry(indent: nat, key: string, value: string) | Bad(error: LineError)

  /** What one raw line contributes, before nesting is considered. */
  function ScanLine(raw: string): Line {
    var line := RStrip(Before(raw, '#'));
    if Strip(line) == [] then Blank
    else
      var indent := LeadingBlanks(line);
      if indent % 2 != 0 then Bad(BadIndentation)
      else if ':' !in line then Bad(MissingColon)
      else
        var stripped := Strip(line);
        var key := Before(stripped, ':');
        if key == [] then Bad(MissingKey) else Entry(indent, key, Strip(After(stripped, ':')))
  }

  // ----- what a line means -----

  /** Whatever follows the first comment sign does not matter. */
  lemma CommentIsCut(line: string, comment: string)
    requires '#' !in line
    ensures ScanLine(line + ['#'] + comment) == ScanLine(line)
  {
    SplitAt(line, '#', comment);
    BeforeAbsent(line, '#');
  }

  /** How far a line is indented: blanks only, and no more of them follow. */
  ghost predicate IndentedBy(line: string, n: nat) {
    && n <= |line| && (forall i :: 0 <= i < n ==> line[i] == ' ') && (n < |line| ==> line[n] != ' ')
  }

  lemma {:induction false} LeadingBlanksMeaning(s: string)
    ensures IndentedBy(s, LeadingBlanks(s))
  {
    if s != [] && s[0] == ' ' { LeadingBlanksMeaning(s[1..]); }
  }

  lemma RStripIndent(line: string, n: nat)
    requires IndentedBy(line, n) && !AllSpace(line)
    ensures LeadingBlanks(RStrip(line)) == n && n < |line|
  {
    var right := RStripMeaning(line);
    var kept := RStrip(line);
    assert IsSpace(' ') by { SpaceChars(); }
    assert forall i :: |kept| <= i < |line| ==> line[i] == right[i - |kept|];
    assert n < |kept|;
    LeadingBlanksMeaning(kept);
    assert kept[n] == line[n];
  }

  /**
   The exact meaning of a line without a comment sign: blank when it is all white space;
   otherwise an error for an odd indentation, for a missing colon, for a missing key, in
   that order; otherwise its indentation, the text before the first colon, and the text
   after it without white space around.
   */
  lemma ScanMeaning(line: string, n: nat)
    requires '#' !in line && IndentedBy(line, n)
    ensures ScanLine(line) == Blank <==> AllSpace(line)
    ensures ScanLine(line) == Bad(BadIndentation) <==> !AllSpace(line) && n % 2 == 1
    ensures ScanLine(line) == Bad(MissingColon) <==> !AllSpace(line) && n % 2 == 0 && ':' !in line
    ensures ScanLine(line) == Bad(MissingKey) <==> !AllSpace(line) && n % 2 == 0 && ':' in line && Strip(line) != [] && Strip(line)[0] == ':'
    ensures ScanLine(line).Entry? ==>
      var key, value := ScanLine(line).key, ScanLine(line).value;
      && ScanLine(line).indent == n && key != [] && ':' !in key
      && exists rest :: Strip(line) == key + [':'] + rest && value == Strip(rest)
  {
    BeforeAbsent(line, '#');
    var right := RStripMeaning(line);
    var kept := RStrip(line);
    StripRStrip(line);
    var left, end := StripMeaning(line);
    if !AllSpace(line) {
      RStripIndent(line, n);
      ColonKept(line, kept, right);
      ColonInStripped(line, left, end);
      BeforeMeaning(Strip(line), ':');
    }
  }

  lemma StripRStrip(line: string)
    ensures Strip(RStrip(line)) == Strip(line)
  {
    var right := RStripMeaning(line);
    assert RStrip(RStrip(line)) == RStrip(line);
  }

  lemma NotSpace(s: string, c: char)
    requires AllSpace(s) && !IsSpace(c)
    ensures c !in s
  {}

  lemma ColonKept(line: string, kept: string, right: string)
    requires line == kept + right && AllSpace(right)
    ensures ':' in line <==> ':' in kept
  {
    assert !IsSpace(':') by { SpaceChars(); }
    NotSpace(right, ':');
  }

  lemma ColonInStripped(line: string, left: string, right: string)
    requires line == left + Strip(line) + right && AllSpace(left) && AllSpace(right)
    ensures ':' in line <==> ':' in Strip(line)
  {
    assert !IsSpace(':') by { SpaceChars(); }
    NotSpace(left, ':');
    NotSpace(right, ':');
  }

  /** Quotes of one kind around a text are removed, and nothing inside them is read. */
  lemma QuotedScalar(quote: char, text: string)
    requires quote in {'\'', '"'}
    ensures ParseScalar([quote] + text + [quote]) == Text(text)
  {
    var value := [quote] + text + [quote];
    assert value[0] == quote && value[|value| - 1] == quote && value[1..|value| - 1] == text;
    StripFixed(value);
    assert value[0] !in {'t', 'T', 'y', 'Y', 'f', 'F', 'n', 'N', '~'};
    assert "true"[0] == 't' && "True"[0] == 'T' && "yes"[0] == 'y' && "Yes"[0] == 'Y';
    assert "false"[0] == 'f' && "False"[0] == 'F' && "no"[0] == 'n' && "No"[0] == 'N';
    assert "null"[0] == 'n' && "Null"[0] == 'N' && "~"[0] == '~';
  }

  /** A text that is not one of the words below and not quoted stands for itself, without the white space around it. */
  lemma ScalarMeaning(value: string)
    ensures ParseScalar(value) == Flag(true) <==> Strip(value) in ["true", "True", "yes", "Yes"]
    ensures ParseScalar(value) == Flag(false) <==> Strip(value) in ["false", "False", "no", "No"]
    ensures ParseScalar(value) == Null <==> Strip(value) in ["null", "Null", "~"]
    ensures ParseScalar(value).Text? ==> var text, bare := ParseScalar(value).text, Strip(value);
      bare == text || bare == ['"'] + text + ['"'] || bare == ['\''] + text + ['\'']
    ensures ParseScalar(value) == Text(Strip(value)) ==>
      !exists text :: Strip(value) == ['"'] + text + ['"'] || Strip(value) == ['\''] + text + ['\'']
  {
    WordsDiffer();
    var bare := Strip(value);
    if |bare| >= 2 && bare[0] == bare[|bare| - 1] {
      assert bare == [bare[0]] + bare[1..|bare| - 1] + [bare[0]];
    }
    if text :| bare == ['"'] + text + ['"'] || bare == ['\''] + text + ['\''] {
      assert |bare| == |text| + 2;
    }
  }

  lemma WordsDiffer()
    ensures forall a, b :: a in ["true", "True", "yes", "Yes"] && b in ["false", "False", "no", "No"] ==> a != b
    ensures forall a, b :: a in ["true", "True", "yes", "Yes"] && b in ["null", "Null", "~"] ==> a != b
    ensures forall a, b :: a in ["false", "False", "no", "No"] && b in ["null", "Null", "~"] ==> a != b
  {
    assert "true"[0] == 't' && "True"[0] == 'T' && "yes"[0] == 'y' && "Yes"[0] == 'Y';
    assert "false"[0] == 'f' && "False"[0] == 'F' && "no"[0] == 'n' && "No"[0] == 'N';
    assert "null"[0] == 'n' && "Null"[0] == 'N' && "~"[0] == '~';
    assert |"no"| == 2 && |"No"| == 2 && |"null"| == 4 && |"Null"| == 4;
  }

  // ----- canonical lines -----

  function Blanks(n: nat): (r: string)
    ensures |r| == n && forall i :: 0 <= i < n ==> r[i] == ' '
  {
    seq(n, _ => ' ')
  }

  /** Keys that survive: trailing blanks are harmless, a leading blank is not. */
  predicate CleanKey(key: string) {
    key != [] && '#' !in key && ':' !in key && !IsSpace(key[0])
  }

  predicate CleanText(text: string) {
    text != [] && '#' !in text && !IsSpace(text[0]) && !IsSpace(text[|text| - 1])
  }

  lemma {:induction false} BlanksLead(n: nat, rest: string)
    requires rest != [] && !IsSpace(rest[0])
    ensures LeadingBlanks(Blanks(n) + rest) == n && LStrip(Blanks(n) + rest) == rest
  {
    if n == 0 {
      assert Blanks(n) + rest == rest;
    } else {
      BlanksLead(n - 1, rest);
      assert (Blanks(n) + rest)[1..] == Blanks(n - 1) + rest;
    }
  }

  /** A canonical line: indentation, key, colon, and the text of a scalar after one blank. */
  function CanonicalLine(depth: nat, key: string, text: string): string {
    Blanks(2 * depth) + key + [':'] + if text == [] then [] else [' '] + text
  }

  lemma RStripFixed(s: string)
    requires s == [] || !IsSpace(s[|s| - 1])
    ensures RStrip(s) == s
  {}

  lemma AbsentFromAll(c: char, a: string, b: string)
    requires c !in a && c !in b
    ensures c !in a + b
  {}

  /** Everything of a canonical line after its indentation. */
  function Body(key: string, text: string): string {
    key + [':'] + if text == [] then [] else [' '] + text
  }

  lemma BodyFacts(key: string, text: string)
    requires CleanKey(key) && (text == [] || CleanText(text))
    ensures var body := Body(key, text);
      && body != [] && '#' !in body && ':' in body
      && !IsSpace(body[0]) && !IsSpace(body[|body| - 1])
      && Before(body, ':') == key && Strip(After(body, ':')) == text
  {
    hide IsSpace;
    hide Before;
    hide After;
    hide Strip;
    var tail := if text == [] then [] else [' '] + text;
    AbsentFromAll('#', key, [':']);
    AbsentFromAll('#', key + [':'], tail);
    SplitAt(key, ':', tail);
    BodyEdges(key, text);
    if text == [] {
      assert Strip(tail) == [] by { StripEmpty(); }
    } else {
      StripPadded(text);
    }
  }

  lemma BodyEdges(key: string, text: string)
    requires CleanKey(key) && (text == [] || CleanText(text))
    ensures var body := Body(key, text);
      body != [] && ':' in body && !IsSpace(body[0]) && !IsSpace(body[|body| - 1])
  {
    hide IsSpace;
    var body := Body(key, text);
    assert body[|key|] == ':' && body[0] == key[0];
    assert !IsSpace(':') by { SpaceChars(); }
    if text != [] { assert body[|body| - 1] == text[|text| - 1]; }
  }

  lemma StripEmpty()
    ensures Strip([]) == []
  {}

  lemma StripPadded(text: string)
    requires CleanText(text)
    ensures Strip([' '] + text) == text
  {
    hide IsSpace;
    var tail := [' '] + text;
    assert IsSpace(' ') by { SpaceChars(); }
    assert tail[|tail| - 1] == text[|text| - 1];
    RStripFixed(tail);
    assert tail[0] == ' ' && tail[1..] == text;
    assert LStrip(text) == text;
    assert LStrip(tail) == LStrip(text);
  }

  lemma SpaceChars()
    ensures IsSpace(' ') && !IsSpace(':')
  {}

  lemma ScanCanonical(depth: nat, key: string, text: string)
    requires CleanKey(key) && (text == [] || CleanText(text))
    ensures ScanLine(CanonicalLine(depth, key, text)) == Entry(2 * depth, key, text)
  {
    hide IsSpace;
    hide CleanText;
    hide Body;
    hide Before;
    hide After;
    hide RStrip;
    hide LStrip;
    hide LeadingBlanks;
    hide CanonicalLine;
    var raw, body := CanonicalLine(depth, key, text), Body(key, text);
    assert raw == Blanks(2 * depth) + body by { CanonicalIsBody(depth, key, text); }
    BodyFacts(key, text);
    AbsentFromAll('#', Blanks(2 * depth), body);
    BeforeAbsent(raw, '#');
    RStripFixed(raw);
    BlanksLead(2 * depth, body);
    assert Strip(raw) == body && ':' in raw;
  }

  lemma CanonicalIsBody(depth: nat, key: string, text: string)
    ensures CanonicalLine(depth, key, text) == Blanks(2 * depth) + Body(key, text)
  {}

  // ----- canonical scalars -----

  /** Text that the scalar reader maps to itself. */
  predicate SelfMapped(text: string) {
    CleanText(text) && ParseScalar(text) == Text(text)
  }

  function RenderScalar(s: Scalar): string {
    match s
    case Flag(on) => if on then "true" else "false"
    case Null => "null"
    case Text(text) => if SelfMapped(text) then text else ['"'] + text + ['"']
  }

  predicate CleanScalar(s: Scalar) { s.Text? ==> '#' !in s.text }

  /** Every scalar without a comment sign survives being written and read. */
  lemma ScalarRoundTrip(s: Scalar)
    requires CleanScalar(s)
    ensures CleanText(RenderScalar(s)) && ParseScalar(RenderScalar(s)) == s
  {
    if s.Text? && !SelfMapped(s.text) {
      var quoted := ['"'] + s.text + ['"'];
      assert quoted[0] == '"' && quoted[|quoted| - 1] == '"';
      assert quoted[1..|quoted| - 1] == s.text;
      assert Strip(quoted) == quoted;
      assert quoted[0] !in {'t', 'T', 'y', 'Y', 'f', 'F', 'n', 'N', '~'};
      assert "true"[0] == 't' && "True"[0] == 'T' && "yes"[0] == 'y' && "Yes"[0] == 'Y';
      assert "false"[0] == 'f' && "False"[0] == 'F' && "no"[0] == 'n' && "No"[0] == 'N';
      assert "null"[0] == 'n' && "Null"[0] == 'N' && "~"[0] == '~';
    }
  }

  // ----- lines of a file -----

  predicate IsLineBreak(c: char) {
    || '\U{A}' <= c <= '\U{D}' || '\U{1C}' <= c <= '\U{1E}' || c == '\U{85}' || c == '\U{2028}' || c == '\U{2029}'
  }

  /** `str.splitlines`: `line` is the line read so far. */
  function SplitFrom(line: string, rest: string): seq<string>
    decreases |rest|
  {
    if rest == [] then (if line == [] then [] else [line])
    else if rest[0] == '\r' && |rest| > 1 && rest[1] == '\n' then [line] + SplitFrom([], rest[2..])
    else if IsLineBreak(rest[0]) then [line] + SplitFrom([], rest[1..])
    else SplitFrom(line + [rest[0]], rest[1..])
  }

  function SplitLines(text: string): seq<string> { SplitFrom([], text) }

  function JoinLines(lines: seq<string>): string {
    if lines == [] then [] else lines[0] + ['\n'] + JoinLines(lines[1..])
  }

  predicate OneLine(s: string) { forall i :: 0 <= i < |s| ==> !IsLineBreak(s[i]) }

  lemma {:induction false} SplitOneLine(line: string, more: string, rest: string)
    requires OneLine(more)
    ensures SplitFrom(line, more + ['\n'] + rest) == [line + more] + SplitFrom([], rest)
    decreases |more|
  {
    var all := more + ['\n'] + rest;
    if more == [] {
      assert all[1..] == rest;
      assert line + more == line;
    } else {
      assert all[1..] == more[1..] + ['\n'] + rest;
      assert all[0] == more[0] && !IsLineBreak(more[0]);
      SplitOneLine(line + [more[0]], more[1..], rest);
      assert line + [more[0]] + more[1..] == line + more;
    }
  }

  /** The line breaks of `str.splitlines`. */
  lemma LineBreaks(c: char)
    ensures IsLineBreak(c) <==>
      c in ['\n', '\U{B}', '\U{C}', '\r', '\U{1C}', '\U{1D}', '\U{1E}', '\U{85}', '\U{2028}', '\U{2029}']
  {}

  lemma {:induction false} SplitTail(line: string, more: string)
    requires OneLine(more)
    ensures SplitFrom(line, more) == if line + more == [] then [] else [line + more]
    decreases |more|
  {
    if more == [] {
      assert line + more == line;
    } else {
      assert more[0] != '\r' && !IsLineBreak(more[0]);
      SplitTail(line + [more[0]], more[1..]);
      assert line + [more[0]] + more[1..] == line + more;
    }
  }

  lemma {:induction false} SplitAtBreak(line: string, more: string, rest: string)
    requires OneLine(more) && rest != [] && IsLineBreak(rest[0])
    ensures SplitFrom(line, more + rest) == SplitFrom(line + more, rest)
    decreases |more|
  {
    if more == [] {
      assert more + rest == rest && line + more == line;
    } else {
      assert (more + rest)[1..] == more[1..] + rest && (more + rest)[0] == more[0];
      assert more[0] != '\r' && !IsLineBreak(more[0]);
      SplitAtBreak(line + [more[0]], more[1..], rest);
      assert line + [more[0]] + more[1..] == line + more;
    }
  }

  /**
   The exact meaning of splitting: text up to the first break is one line, a carriage
   return and the line feed after it are one break, and nothing follows a final break.
   */
  lemma SplitMeaning(line: string, lineBreak: char, rest: string)
    requires OneLine(line)
    ensures SplitLines(line) == if line == [] then [] else [line]
    ensures IsLineBreak(lineBreak) && !(lineBreak == '\r' && rest != [] && rest[0] == '\n') ==>
      SplitLines(line + [lineBreak] + rest) == [line] + SplitLines(rest)
    ensures SplitLines(line + ['\r', '\n'] + rest) == [line] + SplitLines(rest)
  {
    hide SplitFrom;
    hide SplitLines;
    SplitTail([], line);
    OneLineFirst(line, []);
    var tail, pair := [lineBreak] + rest, ['\r', '\n'] + rest;
    assert line + [lineBreak] + rest == line + tail && line + ['\r', '\n'] + rest == line + pair;
    OneLineFirst(line, tail);
    OneLineFirst(line, pair);
    assert tail[1..] == rest && pair[2..] == rest;
    assert rest != [] ==> tail[1] == rest[0];
  }

  lemma OneLineFirst(line: string, rest: string)
    requires OneLine(line)
    ensures rest == [] ==> SplitLines(line) == if line == [] then [] else [line]
    ensures rest != [] && IsLineBreak(rest[0]) ==>
      SplitLines(line + rest) == [line] + SplitLines(rest[(if rest[0] == '\r' && |rest| > 1 && rest[1] == '\n' then 2 else 1)..])
  {
    assert [] + line == line;
    SplitTail([], line);
    if rest != [] && IsLineBreak(rest[0]) {
      SplitAtBreak([], line, rest);
      BreakEndsLine(line, rest);
    }
    hide SplitFrom;
  }

  lemma BreakEndsLine(line: string, rest: string)
    requires rest != [] && IsLineBreak(rest[0])
    ensures SplitFrom(line, rest) ==
      [line] + SplitLines(rest[(if rest[0] == '\r' && |rest| > 1 && rest[1] == '\n' then 2 else 1)..])
  {}

  /** Writing lines and splitting them gives the lines back. */
  lemma {:induction false} LinesRoundTrip(lines: seq<string>)
    requires forall k :: 0 <= k < |lines| ==> OneLine(lines[k])
    ensures SplitLines(JoinLines(lines)) == lines
  {
    if lines != [] {
      LinesRoundTrip(lines[1..]);
      SplitOneLine([], lines[0], JoinLines(lines[1..]));
      assert [] + lines[0] == lines[0];
      assert lines == [lines[0]] + lines[1..];
    }
  }
}

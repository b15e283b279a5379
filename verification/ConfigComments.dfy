/** Comments and blank lines never change what a configuration file means. */
module ConfigComments {
  import opened Prelude
  import opened TextTools
  import opened ConfigText
  import opened ConfigParser
  import opened ConfigRoundTrip

  /** White space, then perhaps a comment: a line that says nothing. */
  ghost predicate IsFiller(line: string) {
    AllSpace(line) || exists space, comment :: AllSpace(space) && '#' !in space && line == space + ['#'] + comment
  }

  lemma FillerIsBlank(line: string)
    requires IsFiller(line)
    ensures ScanLine(line) == Blank
  {
    hide ScanLine;
    if AllSpace(line) {
      assert '#' !in line by { assert !IsSpace('#'); }
      LeadingBlanksMeaning(line);
      ScanMeaning(line, LeadingBlanks(line));
    } else {
      var space, comment :| AllSpace(space) && '#' !in space && line == space + ['#'] + comment;
      CommentIsCut(space, comment);
      LeadingBlanksMeaning(space);
      ScanMeaning(space, LeadingBlanks(space));
    }
  }

  /** The line itself, or the line with a comment after it. */
  ghost predicate Commented(annotated: string, line: string) {
    annotated == line || ('#' !in line && exists comment :: annotated == line + ['#'] + comment)
  }

  lemma CommentedScan(annotated: string, line: string)
    requires Commented(annotated, line)
    ensures ScanLine(annotated) == ScanLine(line)
  {
    hide ScanLine;
    if annotated != line {
      var comment :| annotated == line + ['#'] + comment;
      CommentIsCut(line, comment);
    }
  }

  /** The same lines, some of them commented, with lines between them that say nothing. */
  ghost predicate Annotates(annotated: seq<string>, lines: seq<string>) {
    if annotated == [] then lines == []
    else
      || (IsFiller(annotated[0]) && Annotates(annotated[1..], lines))
      || (lines != [] && Commented(annotated[0], lines[0]) && Annotates(annotated[1..], lines[1..]))
  }

  /** Two outcomes that differ at most in the number of the offending line. */
  ghost predicate SameOutcome<T>(a: Result<T, ConfigError>, b: Result<T, ConfigError>) {
    match (a, b)
    case (Ok(x), Ok(y)) => x == y
    case (Err(x), Err(y)) => x.error == y.error
    case _ => false
  }

  lemma {:induction false} AnnotatedRun(frames: seq<Frame>, annotated: seq<string>, lines: seq<string>, m: nat, n: nat)
    requires frames != [] && Annotates(annotated, lines)
    ensures SameOutcome(Run(frames, annotated, m), Run(frames, lines, n))
    decreases |annotated|
  {
    hide ScanLine;
    hide IsFiller;
    hide Commented;
    if annotated != [] {
      if IsFiller(annotated[0]) && Annotates(annotated[1..], lines) {
        FillerIsBlank(annotated[0]);
        AnnotatedRun(frames, annotated[1..], lines, m + 1, n);
      } else {
        CommentedScan(annotated[0], lines[0]);
        var line := ScanLine(lines[0]);
        if !line.Bad? { AnnotatedRun(Step(frames, line), annotated[1..], lines[1..], m + 1, n + 1); }
      }
    }
  }

  /** Comments and blank lines change no parsed mapping and no kind of error. */
  lemma CommentsChangeNothing(annotated: seq<string>, lines: seq<string>)
    requires Annotates(annotated, lines)
    ensures SameOutcome(Parse(annotated), Parse(lines))
  {
    AnnotatedRun([ROOT], annotated, lines, 1, 1);
  }

  /** A commented canonical rendering reads back as well. */
  lemma CommentedReadBack(annotated: seq<string>, doc: Doc)
    requires Clean(doc) && Annotates(annotated, Render(doc, 0))
    ensures Parse(annotated) == Ok(Denote(doc, map[]))
  {
    LinesReadBack(doc);
    CommentsChangeNothing(annotated, Render(doc, 0));
  }

  /** A file of comments and blank lines is the empty mapping. */
  lemma {:induction false} OnlyComments(lines: seq<string>)
    requires forall k :: 0 <= k < |lines| ==> IsFiller(lines[k])
    ensures Annotates(lines, []) && Parse(lines) == Ok(map[])
    decreases |lines|
  {
    if lines != [] { OnlyComments(lines[1..]); }
    CommentsChangeNothing(lines, []);
    assert PopTo([ROOT], 0) == [ROOT];
  }
}

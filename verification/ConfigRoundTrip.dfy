/** Writing a nested mapping with two-space indentation and reading it back. */
module ConfigRoundTrip {
  import opened Prelude
  import opened ConfigText
  import opened ConfigParser

  /** A mapping written out in some order; a repeated key is allowed, and the last one counts. */
  datatype Doc = Done | Item(key: string, content: Content, rest: Doc)
  datatype Content = Single(scalar: Scalar) | Nested(doc: Doc)

  function Render(doc: Doc, depth: nat): seq<string> {
    match doc
    case Done => []
    case Item(key, Single(scalar), rest) => [CanonicalLine(depth, key, RenderScalar(scalar))] + Render(rest, depth)
    case Item(key, Nested(inner), rest) => [CanonicalLine(depth, key, [])] + (Render(inner, depth + 1) + Render(rest, depth))
  }

  /** The mapping a document stands for, on top of entries already there. */
  function Denote(doc: Doc, entries: map<string, Tree>): map<string, Tree> {
    match doc
    case Done => entries
    case Item(key, Single(scalar), rest) => Denote(rest, entries[key := Leaf(scalar)])
    case Item(key, Nested(inner), rest) => Denote(rest, entries[key := Node(Denote(inner, map[]))])
  }

  predicate Clean(doc: Doc) {
    match doc
    case Done => true
    case Item(key, Single(scalar), rest) => CleanKey(key) && CleanScalar(scalar) && Clean(rest)
    case Item(key, Nested(inner), rest) => CleanKey(key) && Clean(inner) && Clean(rest)
  }

  function WithEntries(frames: seq<Frame>, entries: map<string, Tree>): seq<Frame>
    requires frames != []
  {
    frames[..|frames| - 1] + [frames[|frames| - 1].(entries := entries)]
  }

  function TopEntries(frames: seq<Frame>): map<string, Tree>
    requires frames != []
  {
    frames[|frames| - 1].entries
  }

  // ----- the stack -----

  lemma {:induction false} PopToTwice(frames: seq<Frame>, outer: nat, inner: nat)
    requires outer <= inner
    ensures PopTo(PopTo(frames, inner), outer) == PopTo(frames, outer)
    decreases |frames|
  {
    if |frames| >= 2 && inner <= frames[|frames| - 1].indent {
      PopToTwice(Close(frames), outer, inner);
    }
  }

  lemma {:induction false} RunConcat(frames: seq<Frame>, a: seq<string>, b: seq<string>, n: nat)
    requires frames != [] && Run(frames, a, n).Ok?
    ensures Run(frames, a + b, n) == Run(Run(frames, a, n).value, b, n + |a|)
    decreases |a|
  {
    hide ScanLine;
    hide Step;
    if a == [] {
      assert a + b == b;
    } else {
      assert (a + b)[0] == a[0] && (a + b)[1..] == a[1..] + b;
      RunConcat(Step(frames, ScanLine(a[0])), a[1..], b, n + 1);
    }
  }

  lemma RunHead(frames: seq<Frame>, line: string, rest: seq<string>, n: nat)
    requires frames != [] && !ScanLine(line).Bad?
    ensures Run(frames, [line] + rest, n) == Run(Step(frames, ScanLine(line)), rest, n + 1)
  {
    assert ([line] + rest)[0] == line && ([line] + rest)[1..] == rest;
  }

  lemma RunNothing(frames: seq<Frame>, n: nat)
    requires frames != []
    ensures Run(frames, [], n) == Ok(frames)
  {}

  lemma StackedTop(frames: seq<Frame>, top: Frame)
    requires WellStacked(frames) && frames[|frames| - 1].indent < top.indent
    ensures WellStacked(frames + [top])
  {}

  lemma WithEntriesStacked(frames: seq<Frame>, entries: map<string, Tree>)
    requires WellStacked(frames)
    ensures WellStacked(WithEntries(frames, entries))
  {}

  lemma ReadSingle(frames: seq<Frame>, depth: nat, key: string, scalar: Scalar)
    requires WellStacked(frames) && CleanKey(key) && CleanScalar(scalar)
    ensures var line := ScanLine(CanonicalLine(depth, key, RenderScalar(scalar))); var parents := PopTo(frames, 2 * depth);
      var stored := WithEntries(parents, TopEntries(parents)[key := Leaf(scalar)]);
      && !line.Bad? && Step(frames, line) == stored && WellStacked(stored) && PopTo(stored, 2 * depth) == stored
  {
    hide ScanLine;
    hide CanonicalLine;
    ScalarRoundTrip(scalar);
    ScanCanonical(depth, key, RenderScalar(scalar));
    PopToStacked(frames, 2 * depth);
    WithEntriesStacked(PopTo(frames, 2 * depth), TopEntries(PopTo(frames, 2 * depth))[key := Leaf(scalar)]);
  }

  lemma ReadHeader(frames: seq<Frame>, depth: nat, key: string)
    requires WellStacked(frames) && CleanKey(key)
    ensures var line := ScanLine(CanonicalLine(depth, key, [])); var parents := PopTo(frames, 2 * depth);
      var deeper := parents + [Frame(2 * depth, key, map[])];
      && !line.Bad? && Step(frames, line) == deeper && WellStacked(deeper)
      && PopTo(deeper, 2 * (depth + 1)) == deeper && TopEntries(deeper) == map[]
  {
    hide ScanLine;
    hide CanonicalLine;
    ScanCanonical(depth, key, []);
    PopToStacked(frames, 2 * depth);
    StackedTop(PopTo(frames, 2 * depth), Frame(2 * depth, key, map[]));
  }

  /**
   Reading the lines of a document at some depth adds exactly its entries to the
   dictionary that is open at that depth, whatever deeper dictionaries were left open.
   */
  lemma {:induction false} RunDoc(frames: seq<Frame>, doc: Doc, depth: nat, n: nat)
    requires frames != [] && WellStacked(frames) && Clean(doc)
    ensures var parents := PopTo(frames, 2 * depth); var r := Run(frames, Render(doc, depth), n);
      && r.Ok? && WellStacked(r.value)
      && PopTo(r.value, 2 * depth) == WithEntries(parents, Denote(doc, TopEntries(parents)))
    decreases doc
  {
    hide ScanLine;
    hide CanonicalLine;
    hide RenderScalar;
    hide Step;
    hide Run;
    hide WellStacked;
    hide CleanKey;
    hide CleanScalar;
    hide PopTo;
    var parents := PopTo(frames, 2 * depth);
    var entries := TopEntries(parents);
    match doc
    case Done =>
      RunNothing(frames, n);
    case Item(key, Single(scalar), rest) =>
      var line := CanonicalLine(depth, key, RenderScalar(scalar));
      var updated := entries[key := Leaf(scalar)];
      ReadSingle(frames, depth, key, scalar);
      RunHead(frames, line, Render(rest, depth), n);
      RunDoc(WithEntries(parents, updated), rest, depth, n + 1);
      Overwrite(parents, updated, Denote(rest, updated));
    case Item(key, Nested(inner), rest) =>
      var line := CanonicalLine(depth, key, []);
      var child := Frame(2 * depth, key, map[]);
      var deeper := parents + [child];
      ReadHeader(frames, depth, key);
      RunHead(frames, line, Render(inner, depth + 1) + Render(rest, depth), n);
      RunDoc(deeper, inner, depth + 1, n + 1);
      RunConcat(deeper, Render(inner, depth + 1), Render(rest, depth), n + 1);
      var after := Run(deeper, Render(inner, depth + 1), n + 1).value;
      var updated := entries[key := Node(Denote(inner, map[]))];
      NestedPopped(frames, child, Denote(inner, map[]), after, depth);
      RunDoc(after, rest, depth, n + 1 + |Render(inner, depth + 1)|);
      Overwrite(parents, updated, Denote(rest, updated));
  }

  /** Back at the outer depth, the nested dictionary has become one entry. */
  lemma NestedPopped(frames: seq<Frame>, child: Frame, inner: map<string, Tree>, after: seq<Frame>, depth: nat)
    requires WellStacked(frames) && child == Frame(2 * depth, child.key, map[])
    requires PopTo(after, 2 * (depth + 1)) == WithEntries(PopTo(frames, 2 * depth) + [child], inner)
    ensures var parents := PopTo(frames, 2 * depth);
      PopTo(after, 2 * depth) == WithEntries(parents, TopEntries(parents)[child.key := Node(inner)])
  {
    PopToStacked(frames, 2 * depth);
    var parents := PopTo(frames, 2 * depth);
    NestedClosed(parents, child, inner, after, depth);
  }

  lemma Overwrite(frames: seq<Frame>, first: map<string, Tree>, second: map<string, Tree>)
    requires frames != []
    ensures WithEntries(WithEntries(frames, first), second) == WithEntries(frames, second)
    ensures TopEntries(WithEntries(frames, first)) == first
  {}

  lemma NestedClosed(parents: seq<Frame>, child: Frame, inner: map<string, Tree>, after: seq<Frame>, depth: nat)
    requires parents != [] && parents[|parents| - 1].indent < 2 * depth == child.indent && child.entries == map[]
    requires PopTo(after, 2 * (depth + 1)) == WithEntries(parents + [child], inner)
    ensures PopTo(after, 2 * depth) == WithEntries(parents, TopEntries(parents)[child.key := Node(inner)])
  {
    var deeper := parents + [child];
    var done := WithEntries(deeper, inner);
    PopToTwice(after, 2 * depth, 2 * (depth + 1));
    var closed := WithEntries(parents, TopEntries(parents)[child.key := Node(inner)]);
    assert Close(done) == closed by {
      assert done[..|parents| - 1] == parents[..|parents| - 1];
      assert done[|parents| - 1] == parents[|parents| - 1] && done[|parents|] == child.(entries := inner);
    }
    assert PopTo(done, 2 * depth) == PopTo(closed, 2 * depth);
  }

  /** Reading a canonical rendering gives the mapping back, in whatever order its keys were written. */
  lemma LinesReadBack(doc: Doc)
    requires Clean(doc)
    ensures Parse(Render(doc, 0)) == Ok(Denote(doc, map[]))
  {
    RunDoc([ROOT], doc, 0, 1);
    assert PopTo([ROOT], 0) == [ROOT];
  }

  // ----- from text, and for every mapping -----

  predicate OneLineDoc(doc: Doc) {
    match doc
    case Done => true
    case Item(key, Single(scalar), rest) => OneLine(key) && (scalar.Text? ==> OneLine(scalar.text)) && OneLineDoc(rest)
    case Item(key, Nested(inner), rest) => OneLine(key) && OneLineDoc(inner) && OneLineDoc(rest)
  }

  lemma OneLineScalar(scalar: Scalar)
    requires scalar.Text? ==> OneLine(scalar.text)
    ensures OneLine(RenderScalar(scalar))
  {}

  lemma OneLineCanonical(depth: nat, key: string, text: string)
    requires OneLine(key) && OneLine(text)
    ensures OneLine(CanonicalLine(depth, key, text))
  {}

  lemma {:induction false} OneLineRender(doc: Doc, depth: nat)
    requires OneLineDoc(doc)
    ensures forall k :: 0 <= k < |Render(doc, depth)| ==> OneLine(Render(doc, depth)[k])
    decreases doc
  {
    hide OneLine;
    hide CanonicalLine;
    match doc
    case Done =>
    case Item(key, Single(scalar), rest) =>
      OneLineScalar(scalar);
      OneLineCanonical(depth, key, RenderScalar(scalar));
      OneLineRender(rest, depth);
    case Item(key, Nested(inner), rest) =>
      assert OneLine([]) by { NothingToBreak(); }
      OneLineCanonical(depth, key, []);
      OneLineRender(inner, depth + 1);
      OneLineRender(rest, depth);
  }

  lemma NothingToBreak()
    ensures OneLine([])
  {}

  function ParseText(text: string): Result<map<string, Tree>, ConfigError> { Parse(SplitLines(text)) }

  function RenderText(doc: Doc): string { JoinLines(Render(doc, 0)) }

  ghost predicate CleanTree(tree: Tree) {
    match tree
    case Leaf(scalar) => CleanScalar(scalar) && (scalar.Text? ==> OneLine(scalar.text))
    case Node(entries) => forall k :: k in entries ==> CleanKey(k) && OneLine(k) && CleanTree(entries[k])
  }

  /** Every mapping can be written as a document; here `keys` of it on top of `base`. */
  lemma {:induction false} WriteKeys(tree: Tree, keys: set<string>, base: map<string, Tree>) returns (doc: Doc)
    requires tree.Node? && keys <= tree.entries.Keys && CleanTree(tree)
    ensures Clean(doc) && OneLineDoc(doc)
    ensures Denote(doc, base) == base + map k | k in keys :: tree.entries[k]
    decreases tree, |keys|
  {
    hide OneLine;
    hide CleanKey;
    hide CleanScalar;
    if keys == {} {
      doc := Done;
      assert base + (map k | k in keys :: tree.entries[k]) == base;
    } else {
      var key :| key in keys;
      var value := tree.entries[key];
      assert CleanKey(key) && OneLine(key) && CleanTree(value);
      var rest := WriteKeys(tree, keys - {key}, base[key := value]);
      AddKey(tree.entries, keys, key, base);
      match value {
        case Leaf(scalar) =>
          doc := Item(key, Single(scalar), rest);
        case Node(entries) =>
          var inner := WriteKeys(value, entries.Keys, map[]);
          assert map[] + (map k | k in entries.Keys :: entries[k]) == entries;
          doc := Item(key, Nested(inner), rest);
      }
    }
  }

  lemma AddKey(entries: map<string, Tree>, keys: set<string>, key: string, base: map<string, Tree>)
    requires key in keys && keys <= entries.Keys
    ensures base[key := entries[key]] + (map k | k in keys - {key} :: entries[k]) == base + map k | k in keys :: entries[k]
  {}

  /**
   Round trip: every nested mapping whose keys are non-empty, start with no blank and
   hold neither ':' nor '#', and whose texts hold no '#', all on one line, has a
   canonical two-space rendering that reads back as exactly that mapping.
   */
  lemma RoundTrip(entries: map<string, Tree>) returns (doc: Doc)
    requires CleanTree(Node(entries))
    ensures Denote(doc, map[]) == entries
    ensures ParseText(RenderText(doc)) == Ok(entries)
  {
    doc := WriteKeys(Node(entries), entries.Keys, map[]);
    assert map[] + (map k | k in entries.Keys :: entries[k]) == entries;
    OneLineRender(doc, 0);
    LinesRoundTrip(Render(doc, 0));
    LinesReadBack(doc);
  }
}

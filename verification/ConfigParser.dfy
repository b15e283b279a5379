/**
 The indentation-stack reader of the YAML subset.  `Parse` is the meaning of a
 list of lines; `ReadYamlMapping` is the loop over a mutable stack of aliased
 dictionaries, proved to build a heap structure that represents that meaning.
 */
module ConfigParser {
  import opened Prelude
  import opened ConfigText

  datatype Tree = Leaf(scalar: Scalar) | Node(entries: map<string, Tree>)

  datatype ConfigError = ConfigError(lineNumber: nat, error: LineError)

  // ----- meaning -----

  /** A dictionary under construction: its indentation, the key it was nested under, and its finished entries. */
  datatype Frame = Frame(indent: int, key: string, entries: map<string, Tree>)

  /** The root comes first with indentation -1; each further frame is open inside the one before. */
  ghost predicate WellStacked(frames: seq<Frame>) {
    && frames != [] && frames[0].indent == -1
    && forall i, j :: 0 <= i < j < |frames| ==> frames[i].indent < frames[j].indent
  }

  /** Finish the innermost frame by storing it in its parent. */
  function Close(frames: seq<Frame>): (r: seq<Frame>)
    requires |frames| >= 2
    ensures |r| == |frames| - 1
  {
    var n := |frames|;
    var parent := frames[n - 2];
    frames[..n - 2] + [parent.(entries := parent.entries[frames[n - 1].key := Node(frames[n - 1].entries)])]
  }

  /** Close every frame that is not a proper ancestor of a line with this indentation. */
  function PopTo(frames: seq<Frame>, indent: nat): (r: seq<Frame>)
    ensures frames != [] ==> r != []
    decreases |frames|
  {
    if |frames| >= 2 && indent <= frames[|frames| - 1].indent then PopTo(Close(frames), indent) else frames
  }

  function Store(frames: seq<Frame>, key: string, tree: Tree): seq<Frame>
    requires frames != []
  {
    var top := frames[|frames| - 1];
    frames[..|frames| - 1] + [top.(entries := top.entries[key := tree])]
  }

  function Step(frames: seq<Frame>, line: Line): (r: seq<Frame>)
    requires frames != [] && !line.Bad?
    ensures r != []
  {
    match line
    case Blank => frames
    case Entry(indent, key, value) =>
      var parents := PopTo(frames, indent);
      if value == [] then parents + [Frame(indent, key, map[])] else Store(parents, key, Leaf(ParseScalar(value)))
  }

  function Run(frames: seq<Frame>, lines: seq<string>, lineNumber: nat): (r: Result<seq<Frame>, ConfigError>)
    requires frames != []
    ensures r.Ok? ==> r.value != []
    decreases |lines|
  {
    if lines == [] then Ok(frames)
    else
      var line := ScanLine(lines[0]);
      if line.Bad? then Err(ConfigError(lineNumber, line.error))
      else Run(Step(frames, line), lines[1..], lineNumber + 1)
  }

  const ROOT := Frame(-1, [], map[])

  function Finish(frames: seq<Frame>): map<string, Tree>
    requires frames != []
  {
    PopTo(frames, 0)[0].entries
  }

  /** The mapping a list of lines stands for. */
  function Parse(lines: seq<string>): Result<map<string, Tree>, ConfigError> {
    match Run([ROOT], lines, 1)
    case Err(error) => Err(error)
    case Ok(frames) => Ok(Finish(frames))
  }

  lemma {:induction false} FirstBadStops(frames: seq<Frame>, lines: seq<string>, n: nat, k: nat)
    requires frames != [] && k <= |lines| && forall i :: 0 <= i < k ==> !ScanLine(lines[i]).Bad?
    ensures k < |lines| && ScanLine(lines[k]).Bad? ==> Run(frames, lines, n) == Err(ConfigError(n + k, ScanLine(lines[k]).error))
    ensures k == |lines| ==> Run(frames, lines, n).Ok?
    decreases k
  {
    hide ScanLine;
    hide Step;
    if k > 0 { FirstBadStops(Step(frames, ScanLine(lines[0])), lines[1..], n + 1, k - 1); }
  }

  /** Parsing fails exactly when some line is bad, with the number, counted from one, and the error of the first such line. */
  lemma FirstBadLine(lines: seq<string>, k: nat)
    requires k <= |lines| && forall i :: 0 <= i < k ==> !ScanLine(lines[i]).Bad?
    ensures k < |lines| && ScanLine(lines[k]).Bad? ==> Parse(lines) == Err(ConfigError(k + 1, ScanLine(lines[k]).error))
    ensures k == |lines| ==> Parse(lines).Ok?
  {
    hide ScanLine;
    FirstBadStops([ROOT], lines, 1, k);
  }

  lemma {:induction false} PopToStacked(frames: seq<Frame>, indent: nat)
    requires WellStacked(frames)
    ensures WellStacked(PopTo(frames, indent)) && PopTo(frames, indent)[|PopTo(frames, indent)| - 1].indent < indent
    decreases |frames|
  {
    if |frames| >= 2 && indent <= frames[|frames| - 1].indent {
      PopToStacked(Close(frames), indent);
    }
  }

  // ----- the heap -----

  datatype Value = Plain(scalar: Scalar) | Child(mapping: Mapping)

  /** A Python dictionary; `tree` is the finished meaning, known once nothing can be added any more. */
  class Mapping {
    var entries: map<string, Value>
    ghost var tree: map<string, Tree>

    constructor ()
      ensures entries == map[]
    {
      entries := map[];
    }
  }

  ghost predicate Represents(value: Value, tree: Tree, finished: set<Mapping>)
    reads finished
  {
    match value
    case Plain(scalar) => tree == Leaf(scalar)
    case Child(mapping) => mapping in finished && tree == Node(mapping.tree)
  }

  ghost predicate Matches(entries: map<string, Value>, tree: map<string, Tree>, finished: set<Mapping>)
    reads finished
  {
    entries.Keys == tree.Keys && forall k :: k in tree ==> Represents(entries[k], tree[k], finished)
  }

  /** Every finished dictionary holds exactly its tree, through finished children only. */
  ghost predicate AllFinished(finished: set<Mapping>)
    reads finished
  {
    forall m :: m in finished ==> Matches(m.entries, m.tree, finished)
  }

  /** An open dictionary holds its finished entries and, below the top, the next open dictionary. */
  ghost predicate OpenAt(stack: seq<Level>, frames: seq<Frame>, finished: set<Mapping>, i: nat)
    requires |stack| == |frames| && i < |stack|
    reads finished, set k | 0 <= k < |stack| :: stack[k].mapping
  {
    var m := stack[i].mapping;
    if i == |stack| - 1 then Matches(m.entries, frames[i].entries, finished)
    else
      var key := frames[i + 1].key;
      && key in m.entries && m.entries[key] == Child(stack[i + 1].mapping)
      && Matches(m.entries - {key}, frames[i].entries - {key}, finished)
  }

  ghost predicate StackOk(stack: seq<Level>, frames: seq<Frame>, finished: set<Mapping>)
    reads finished, set k | 0 <= k < |stack| :: stack[k].mapping
  {
    && |stack| == |frames| && WellStacked(frames) && AllFinished(finished)
    && (forall i :: 0 <= i < |stack| ==> stack[i].indent == frames[i].indent && stack[i].mapping !in finished)
    && (forall i, j :: 0 <= i < j < |stack| ==> stack[i].mapping != stack[j].mapping)
    && forall i :: 0 <= i < |stack| ==> OpenAt(stack, frames, finished, i)
  }

  /** One entry of the reader's stack. */
  datatype Level = Level(indent: int, mapping: Mapping)

  lemma InitialStack(data: Mapping)
    requires data.entries == map[]
    ensures StackOk([Level(-1, data)], [ROOT], {})
  {}

  /** What a pop means: the innermost dictionary is finished from now on.  The program's data is untouched. */
  ghost method FinishTop(stack: seq<Level>, frames: seq<Frame>, finished: set<Mapping>)
    returns (outer: seq<Frame>, done: set<Mapping>)
    requires StackOk(stack, frames, finished) && |stack| >= 2
    modifies stack[|stack| - 1].mapping`tree
    ensures outer == Close(frames) && done == finished + {stack[|stack| - 1].mapping}
    ensures StackOk(stack[..|stack| - 1], outer, done)
  {
    var top, n := stack[|stack| - 1].mapping, |stack|;
    assert OpenAt(stack, frames, finished, n - 1) && OpenAt(stack, frames, finished, n - 2);
    var rest := stack[..n - 1];
    top.tree := frames[n - 1].entries;
    outer := Close(frames);
    done := finished + {top};
    ParentMatches(stack[n - 2].mapping.entries, frames[n - 2].entries, frames[n - 1].key, top, finished, done);
    forall i | 0 <= i < |rest| ensures OpenAt(rest, outer, done, i) {
      assert old(OpenAt(stack, frames, finished, i));
    }
  }

  /** A child that is finished completes its parent's entry. */
  lemma ParentMatches(
      entries: map<string, Value>, tree: map<string, Tree>, key: string, child: Mapping, finished: set<Mapping>, done: set<Mapping>)
    requires key in entries && entries[key] == Child(child)
    requires Matches(entries - {key}, tree - {key}, finished) && finished <= done && child in done
    ensures Matches(entries, tree[key := Node(child.tree)], done)
  {
    var more := tree[key := Node(child.tree)];
    assert entries.Keys == (entries - {key}).Keys + {key} && more.Keys == (tree - {key}).Keys + {key};
    forall k | k in more ensures Represents(entries[k], more[k], done) {
      if k != key { assert Represents((entries - {key})[k], (tree - {key})[k], finished); }
    }
  }

  /** `current[key] = scalar` on the innermost open dictionary. */
  method StoreScalar(stack: seq<Level>, ghost frames: seq<Frame>, ghost finished: set<Mapping>, key: string, scalar: Scalar)
    returns (ghost stored: seq<Frame>)
    requires StackOk(stack, frames, finished)
    modifies stack[|stack| - 1].mapping`entries
    ensures stored == Store(frames, key, Leaf(scalar)) && StackOk(stack, stored, finished)
  {
    var current := stack[|stack| - 1].mapping;
    assert OpenAt(stack, frames, finished, |stack| - 1);
    current.entries := current.entries[key := Plain(scalar)];
    stored := Store(frames, key, Leaf(scalar));
    forall i | 0 <= i < |stack| ensures OpenAt(stack, stored, finished, i) {
      assert old(OpenAt(stack, frames, finished, i));
    }
  }

  /** `current[key] = child` followed by `stack.append((indent, child))`. */
  method OpenChild(stack: seq<Level>, ghost frames: seq<Frame>, ghost finished: set<Mapping>, indent: nat, key: string)
    returns (deeper: seq<Level>, ghost nested: seq<Frame>)
    requires StackOk(stack, frames, finished) && frames[|frames| - 1].indent < indent
    modifies stack[|stack| - 1].mapping`entries
    ensures |deeper| == |stack| + 1 && deeper[..|stack|] == stack && fresh(deeper[|stack|].mapping)
    ensures nested == frames + [Frame(indent, key, map[])] && StackOk(deeper, nested, finished)
  {
    var current := stack[|stack| - 1].mapping;
    assert OpenAt(stack, frames, finished, |stack| - 1);
    var child := new Mapping();
    current.entries := current.entries[key := Child(child)];
    deeper := stack + [Level(indent, child)];
    nested := frames + [Frame(indent, key, map[])];
    forall i | 0 <= i < |deeper| ensures OpenAt(deeper, nested, finished, i) {
      assert i < |stack| ==> old(OpenAt(stack, frames, finished, i));
    }
  }

  ghost function Mappings(stack: seq<Level>): set<Mapping> { set level | level in stack :: level.mapping }

  /** The pop loop at the head of each line. */
  method PopToParent(stack: seq<Level>, ghost frames: seq<Frame>, ghost finished: set<Mapping>, indent: nat)
    returns (rest: seq<Level>, ghost outer: seq<Frame>, ghost done: set<Mapping>)
    requires StackOk(stack, frames, finished)
    modifies Mappings(stack)`tree
    ensures outer == PopTo(frames, indent) && StackOk(rest, outer, done)
    ensures outer[|outer| - 1].indent < indent
    ensures rest != [] && rest <= stack && done <= finished + Mappings(stack)
  {
    rest, outer, done := stack, frames, finished;
    while rest != [] && indent <= rest[|rest| - 1].indent
      invariant StackOk(rest, outer, done)
      invariant rest != [] && rest <= stack && done <= finished + Mappings(stack)
      invariant PopTo(outer, indent) == PopTo(frames, indent)
      decreases |rest|
    {
      assert rest[|rest| - 1] in stack;
      outer, done := FinishTop(rest, outer, done);
      rest := rest[..|rest| - 1];
    }
    // The stack is never empty here, so "Invalid YAML nesting" is never raised.
  }

  /** At the end of the file every dictionary still open is finished too. */
  ghost method FinishAll(stack: seq<Level>, frames: seq<Frame>, finished: set<Mapping>) returns (done: set<Mapping>)
    requires StackOk(stack, frames, finished)
    modifies Mappings(stack)`tree
    ensures stack[0].mapping in done && AllFinished(done) && done <= finished + Mappings(stack)
    ensures stack[0].mapping.tree == Finish(frames)
  {
    if |stack| == 1 {
      assert OpenAt(stack, frames, finished, 0);
      assert stack[0] in stack;
      stack[0].mapping.tree := frames[0].entries;
      done := finished + {stack[0].mapping};
    } else {
      var rest := stack[..|stack| - 1];
      assert stack[|stack| - 1] in stack;
      assert frames[0].indent < frames[|frames| - 1].indent;
      var outer, more := FinishTop(stack, frames, finished);
      done := FinishAll(rest, outer, more);
    }
  }

  /** What the reader does with one well-formed line. */
  method ReadLine(stack: seq<Level>, ghost frames: seq<Frame>, ghost finished: set<Mapping>, line: Line)
    returns (next: seq<Level>, ghost stepped: seq<Frame>, ghost done: set<Mapping>)
    requires StackOk(stack, frames, finished) && !line.Bad?
    modifies Mappings(stack)
    ensures stepped == Step(frames, line) && StackOk(next, stepped, done)
    ensures next != [] && next[0] == stack[0]
    ensures done <= finished + Mappings(stack) && fresh(Mappings(next) - Mappings(stack))
  {
    hide OpenAt;
    hide AllFinished;
    hide WellStacked;
    hide PopTo;
    hide Store;
    hide ParseScalar;
    next, stepped, done := stack, frames, finished;
    match line {
      case Blank =>
      case Entry(indent, key, value) =>
        next, stepped, done := PopToParent(stack, frames, finished, indent);
        assert forall level :: level in next ==> level in stack;
        assert next[|next| - 1] in stack;
        ghost var parents := next;
        if value == [] {
          next, stepped := OpenChild(next, stepped, done, indent, key);
          assert next == parents + [next[|parents|]];
        } else {
          stepped := StoreScalar(next, stepped, done, key, ParseScalar(value));
        }
    }
  }

  /** The reader's loop.  The result shares no dictionary with anything that existed before. */
  method ReadYamlMapping(lines: seq<string>) returns (r: Result<Mapping, ConfigError>, ghost finished: set<Mapping>)
    ensures fresh(finished) && AllFinished(finished)
    ensures r.Err? <==> Parse(lines).Err?
    ensures r.Err? ==> r.error == Parse(lines).error
    ensures r.Ok? ==> r.value in finished && r.value.tree == Parse(lines).value
  {
    hide ScanLine;
    hide Step;
    hide OpenAt;
    hide Matches;
    var data := new Mapping();
    var stack := [Level(-1, data)];
    ghost var frames := [ROOT];
    finished := {};
    InitialStack(data);
    assert lines[0..] == lines;
    var lineNumber := 1;
    while lineNumber <= |lines|
      invariant 1 <= lineNumber <= |lines| + 1
      invariant StackOk(stack, frames, finished) && stack != [] && stack[0].mapping == data
      invariant fresh(finished) && fresh(Mappings(stack))
      invariant Run([ROOT], lines, 1) == Run(frames, lines[lineNumber - 1..], lineNumber)
    {
      var line := ScanLine(lines[lineNumber - 1]);
      assert lines[lineNumber - 1..][1..] == lines[lineNumber..];
      if line.Bad? { return Err(ConfigError(lineNumber, line.error)), {}; }
      stack, frames, finished := ReadLine(stack, frames, finished, line);
      lineNumber := lineNumber + 1;
    }
    assert lines[|lines|..] == [];
    finished := FinishAll(stack, frames, finished);
    r := Ok(data);
  }
}

/**
 The append-only history store: an index of entries and a set of snapshot files.
 `Write` is one call as a step of a state machine; the class carries the state and
 its methods are proved to take that step.  SHA-256 is an arbitrary function, so
 "same snapshot" below always means "same checksum".
 */
module HistoryStore {
  import opened Prelude
  import opened Ordering
  import opened HistoryModel

  type Hash = Payload -> string

  datatype Path = Path(day: int, filename: string)

  datatype StoredFile = StoredFile(checksum: string, payload: Payload)

  datatype IndexEntry = IndexEntry(id: string, date: int, reference: int, path: Path, checksum: string, createdAt: int)

  datatype State = State(index: seq<IndexEntry>, files: map<Path, StoredFile>)

  datatype Outcome =
    | Created(entry: IndexEntry)
    | Duplicate(existing: IndexEntry)
    | Rejected(existing: IndexEntry)
    | FailedValidation

  // ----- paths -----

  function ReplaceColons(id: string): (r: string)
    ensures |r| == |id|
  {
    seq(|id|, i requires 0 <= i < |id| => if id[i] == ':' then '_' else id[i])
  }

  function TwoDigits(n: nat): string { ['0' + (n / 10 % 10) as char, '0' + (n % 10) as char] }

  /** `strftime("%H%M%S")` of a time in seconds. */
  function Clock(time: int): string {
    TwoDigits(time % 86400 / 3600) + TwoDigits(time % 3600 / 60) + TwoDigits(time % 60)
  }

  function SnapshotPath(s: Snapshot, forced: bool): Path {
    Path(s.date, "portfolio_daily_" + ReplaceColons(s.id) + (if forced then "_" + Clock(s.generated) else "") + ".json")
  }

  // ----- one call -----

  /** The first entry with this id. */
  function EntryFor(index: seq<IndexEntry>, id: string): (r: Option<IndexEntry>)
    ensures r.Some? ==> r.value in index && r.value.id == id
    ensures r.None? <==> forall e :: e in index ==> e.id != id
  {
    if index == [] then None
    else if index[0].id == id then Some(index[0])
    else EntryFor(index[1..], id)
  }

  /** `write_snapshot_json` then `read_snapshot_json`: does the comparison pass? */
  predicate ReadsBack(s: Snapshot) {
    FromPayload(ToDict(s)).Ok? && ToDict(FromPayload(ToDict(s)).value) == ToDict(s)
  }

  function NewEntry(s: Snapshot, path: Path, checksum: string): IndexEntry {
    IndexEntry(s.id, s.date, s.reference, path, checksum, s.generated)
  }

  /** The effect of `write_snapshot` on the store. */
  function Write(state: State, s: Snapshot, forceNew: bool, hash: Hash): (State, Outcome) {
    var checksum, existing := hash(ToDict(s)), EntryFor(state.index, s.id);
    if existing.Some? && !forceNew then
      (state, if existing.value.checksum == checksum then Duplicate(existing.value) else Rejected(existing.value))
    else
      var path := SnapshotPath(s, forceNew && existing.Some?);
      var files := state.files[path := StoredFile(checksum, ToDict(s))];
      if !ReadsBack(s) then (State(state.index, files), FailedValidation)
      else
        var entry := NewEntry(s, path, checksum);
        (State(state.index + [entry], files), Created(entry))
  }

  /** What `load_snapshot` raises: no such id, no such file, a checksum that does not match, or an invalid payload. */
  datatype LoadError = UnknownId | MissingFile | ChecksumMismatch | Invalid(error: HistoryError)

  /** `read_snapshot_json`. */
  function ReadFile(state: State, path: Path, hash: Hash): Result<Snapshot, LoadError> {
    if path !in state.files then Err(MissingFile)
    else if state.files[path].checksum != hash(state.files[path].payload) then Err(ChecksumMismatch)
    else
      match FromPayload(state.files[path].payload)
      case Err(error) => Err(Invalid(error))
      case Ok(s) => Ok(s)
  }

  /** `load_snapshot`. */
  function Load(state: State, id: string, hash: Hash): Result<Snapshot, LoadError> {
    match EntryFor(state.index, id)
    case None => Err(UnknownId)
    case Some(entry) => ReadFile(state, entry.path, hash)
  }

  predicate EntryLe(a: IndexEntry, b: IndexEntry) {
    a.reference < b.reference || (a.reference == b.reference && TextLe(a.id, b.id))
  }

  function List(state: State): seq<IndexEntry> { SortBy(state.index, EntryLe) }

  /** `latest_snapshot`: None for an empty store, otherwise what loading the last listed id gives. */
  function Latest(state: State, hash: Hash): Option<Result<Snapshot, LoadError>> {
    if state.index == [] then None else Some(Load(state, List(state)[|state.index| - 1].id, hash))
  }

  class PortfolioHistoryStore {
    const hash: Hash
    var index: seq<IndexEntry>
    var files: map<Path, StoredFile>

    ghost function Current(): State
      reads this
    {
      State(index, files)
    }

    constructor (hash: Hash)
      ensures this.hash == hash && Current() == State([], map[])
    {
      this.hash := hash;
      index, files := [], map[];
    }

    method EntryBySnapshotId(id: string) returns (r: Option<IndexEntry>)
      ensures r == EntryFor(index, id)
    {
      assert index[0..] == index;
      for k := 0 to |index|
        invariant EntryFor(index, id) == EntryFor(index[k..], id)
      {
        if index[k].id == id { return Some(index[k]); }
        assert index[k..][1..] == index[k + 1..];
      }
      assert index[|index|..] == [];
      r := None;
    }

    method ReadSnapshotJson(path: Path) returns (r: Result<Snapshot, LoadError>)
      ensures r.Ok? <==> path in files && files[path].checksum == hash(files[path].payload) && FromPayload(files[path].payload).Ok?
      ensures r.Ok? ==> FromPayload(files[path].payload) == Ok(r.value)
      ensures r == Err(MissingFile) <==> path !in files
      ensures r == Err(ChecksumMismatch) <==> path in files && files[path].checksum != hash(files[path].payload)
      ensures r.Err? && r.error.Invalid? ==> FromPayload(files[path].payload) == Err(r.error.error)
      ensures r != Err(UnknownId)
    {
      if path !in files { return Err(MissingFile); }
      var stored := files[path];
      if stored.checksum != hash(stored.payload) { return Err(ChecksumMismatch); }
      var read := FromPayload(stored.payload);
      r := if read.Ok? then Ok(read.value) else Err(Invalid(read.error));
    }

    method WriteSnapshot(s: Snapshot, forceNew: bool) returns (outcome: Outcome)
      requires Valid(s)
      modifies this
      ensures (Current(), outcome) == Write(old(Current()), s, forceNew, hash)
    {
      hide ToDict;
      hide FromPayload;
      SnapshotReadBack(s);
      var checksum := hash(ToDict(s));
      var existing := EntryBySnapshotId(s.id);
      if existing.Some? && existing.value.checksum == checksum && !forceNew { return Duplicate(existing.value); }
      if existing.Some? && existing.value.checksum != checksum && !forceNew { return Rejected(existing.value); }
      var path := SnapshotPath(s, forceNew && existing.Some?);
      files := files[path := StoredFile(checksum, ToDict(s))];
      var reread := ReadSnapshotJson(path);
      if reread.Err? || ToDict(reread.value) != ToDict(s) { return FailedValidation; }
      var entry := NewEntry(s, path, checksum);
      index := index + [entry];
      outcome := Created(entry);
    }

    method LoadSnapshot(id: string) returns (r: Result<Snapshot, LoadError>)
      ensures r == Load(Current(), id, hash)
    {
      var entry := EntryBySnapshotId(id);
      if entry == None { return Err(UnknownId); }
      r := ReadSnapshotJson(entry.value.path);
      assert r.Err? ==> r == Err(UnknownId) || r == Err(MissingFile) || r == Err(ChecksumMismatch) || r.error.Invalid?;
    }

    method LatestSnapshot() returns (r: Option<Result<Snapshot, LoadError>>)
      ensures r == Latest(Current(), hash)
    {
      hide SortBy;
      var entries := SortBy(index, EntryLe);
      if entries == [] { return None; }
      var latest := LoadSnapshot(entries[|entries| - 1].id);
      r := Some(latest);
    }
  }

  /**
   Reading inverts writing: a written snapshot is always readable, as a valid snapshot
   with the same id; it has the same payload exactly when no currency amount is a
   negative one that rounds to zero.  Writing to another path never matters.
   */
  lemma ReadInvertsWrite(state: State, path: Path, s: Snapshot, other: Path, hash: Hash)
    requires Valid(s)
    ensures var written := State(state.index, state.files[path := StoredFile(hash(ToDict(s)), ToDict(s))]);
      && ReadFile(written, path, hash).Ok?
      && Valid(ReadFile(written, path, hash).value) && ReadFile(written, path, hash).value.id == s.id
      && (ToDict(ReadFile(written, path, hash).value) == ToDict(s) <==> !AnyTinyNegative(s))
      && (other != path ==> ReadFile(written, other, hash) == ReadFile(state, other, hash))
  {
    hide ToDict;
    hide FromPayload;
    hide Valid;
    hide AnyTinyNegative;
    SnapshotReadBack(s);
    BuiltIsValid(ToDict(s));
    BuiltId(ToDict(s));
    PayloadId(s);
  }

  lemma BuiltId(p: Payload)
    requires FromPayload(p).Ok?
    ensures FromPayload(p).value.id == p.id
  {}

  // ----- what every step keeps -----

  /** Ids and paths are unique, and every entry's file holds the snapshot it was created for. */
  ghost predicate Consistent(state: State, hash: Hash) {
    && (forall i, j :: 0 <= i < j < |state.index| ==> state.index[i].id != state.index[j].id && state.index[i].path != state.index[j].path)
    && forall e :: e in state.index ==> Backed(state, e, hash)
  }

  ghost predicate Backed(state: State, e: IndexEntry, hash: Hash) {
    && e.path in state.files && state.files[e.path].checksum == e.checksum == hash(state.files[e.path].payload)
    && state.files[e.path].payload.id == e.id && FromPayload(state.files[e.path].payload).Ok?
  }

  /** No stored entry already uses the file this snapshot would be written to. */
  ghost predicate PathFree(state: State, s: Snapshot) {
    forall e :: e in state.index ==> e.path != SnapshotPath(s, false)
  }

  lemma {:induction false} EntryForAppend(index: seq<IndexEntry>, entry: IndexEntry, id: string)
    ensures EntryFor(index + [entry], id) ==
      if EntryFor(index, id).Some? then EntryFor(index, id) else if entry.id == id then Some(entry) else None
  {
    if index == [] {
      assert index + [entry] == [entry];
    } else {
      assert (index + [entry])[1..] == index[1..] + [entry];
      EntryForAppend(index[1..], entry, id);
    }
  }

  /** The entry has the snapshot's own id, date, times and checksum. */
  ghost predicate Describes(e: IndexEntry, s: Snapshot, hash: Hash) {
    e.id == s.id && e.date == s.date && e.reference == s.reference && e.createdAt == s.generated && e.checksum == hash(ToDict(s))
  }

  /** Every call, forced or not: the index only grows by appending, and non-creating calls keep it. */
  lemma IndexOnlyGrows(state: State, s: Snapshot, forceNew: bool, hash: Hash)
    ensures var (next, outcome) := Write(state, s, forceNew, hash);
      && state.index <= next.index
      && (outcome.Created? ==> next.index == state.index + [outcome.entry] && Describes(outcome.entry, s, hash))
      && (!outcome.Created? ==> next.index == state.index)
      && (outcome.Duplicate? || outcome.Rejected? ==> next == state)
      && (forall id :: EntryFor(state.index, id).Some? ==> EntryFor(next.index, id) == EntryFor(state.index, id))
  {
    hide ReadsBack;
    hide ToDict;
    var next := Write(state, s, forceNew, hash).0;
    forall id | EntryFor(state.index, id).Some? ensures EntryFor(next.index, id) == EntryFor(state.index, id) {
      if next.index != state.index { EntryForAppend(state.index, next.index[|state.index|], id); }
    }
  }

  /** What an unforced call does, by the id on record and the read-back check. */
  lemma WriteCases(state: State, s: Snapshot, hash: Hash)
    requires Valid(s)
    ensures var (next, outcome) := Write(state, s, false, hash); var existing := EntryFor(state.index, s.id);
      && (outcome.Duplicate? <==> existing.Some? && existing.value.checksum == hash(ToDict(s)))
      && (outcome.Rejected? <==> existing.Some? && existing.value.checksum != hash(ToDict(s)))
      && (outcome.FailedValidation? <==> existing.None? && AnyTinyNegative(s))
      && (outcome.Created? <==> existing.None? && !AnyTinyNegative(s))
  {
    hide ToDict;
    hide FromPayload;
    SnapshotReadBack(s);
  }

  /** What a forced call does: for a new id the same as an unforced one, else one more entry at a path of its own kind. */
  lemma ForcedCases(state: State, s: Snapshot, hash: Hash)
    requires Valid(s)
    ensures var (next, outcome) := Write(state, s, true, hash); var existing := EntryFor(state.index, s.id);
      && (existing.None? ==> Write(state, s, true, hash) == Write(state, s, false, hash))
      && (outcome.FailedValidation? <==> AnyTinyNegative(s)) && (outcome.Created? <==> !AnyTinyNegative(s))
      && (outcome.Created? && existing.Some? ==> outcome.entry.path == SnapshotPath(s, true))
      && (outcome.Created? && existing.None? ==> outcome.entry.path == SnapshotPath(s, false))
  {
    hide ToDict;
    hide FromPayload;
    hide SnapshotPath;
    SnapshotReadBack(s);
  }

  /** A call that stores or fails validation writes one file, of the snapshot's date and content; any other call writes none. */
  lemma OneFileWritten(state: State, s: Snapshot, forceNew: bool, hash: Hash)
    ensures var (next, outcome) := Write(state, s, forceNew, hash);
      && (outcome.Duplicate? || outcome.Rejected? ==> next.files == state.files)
      && (outcome.Created? || outcome.FailedValidation? ==>
            exists name :: next.files == state.files[Path(s.date, name) := StoredFile(hash(ToDict(s)), ToDict(s))])
      && (outcome.Created? ==> outcome.entry.path in next.files && next.files[outcome.entry.path].payload == ToDict(s))
  {
    hide ToDict;
    hide ReadsBack;
    var path := SnapshotPath(s, forceNew && EntryFor(state.index, s.id).Some?);
    assert path == Path(s.date, path.filename);
    hide SnapshotPath;
  }

  /** Loading reads the file of the first entry, so other files do not matter. */
  lemma LoadDependsOnFile(state: State, next: State, id: string, hash: Hash)
    requires EntryFor(state.index, id).Some? && EntryFor(next.index, id) == EntryFor(state.index, id)
    requires var path := EntryFor(state.index, id).value.path;
      path in state.files && path in next.files && next.files[path] == state.files[path]
    ensures Load(next, id, hash) == Load(state, id, hash)
  {}

  /**
   An unforced call on a free path keeps the store consistent, overwrites no
   entry's file and leaves every earlier load unchanged.
   */
  lemma StepKeeps(state: State, s: Snapshot, hash: Hash)
    requires Valid(s) && Consistent(state, hash)
    requires EntryFor(state.index, s.id).None? ==> PathFree(state, s)
    ensures var next := Write(state, s, false, hash).0;
      && Consistent(next, hash)
      && (forall e :: e in state.index ==> e.path in next.files && next.files[e.path] == state.files[e.path])
      && forall id :: EntryFor(state.index, id).Some? ==> Load(next, id, hash) == Load(state, id, hash)
  {
    hide ToDict;
    hide FromPayload;
    hide SnapshotPath;
    hide Load;
    hide Consistent;
    IndexOnlyGrows(state, s, false, hash);
    StepKeepsConsistent(state, s, hash);
    var next := Write(state, s, false, hash).0;
    assert forall e :: e in state.index ==> Backed(state, e, hash) by { EntriesBacked(state, hash); }
    forall id | EntryFor(state.index, id).Some? ensures Load(next, id, hash) == Load(state, id, hash) {
      LoadDependsOnFile(state, next, id, hash);
    }
  }

  lemma EntriesBacked(state: State, hash: Hash)
    requires Consistent(state, hash)
    ensures forall e :: e in state.index ==> Backed(state, e, hash)
  {
    hide Backed;
  }

  lemma StepKeepsConsistent(state: State, s: Snapshot, hash: Hash)
    requires Valid(s) && Consistent(state, hash)
    requires EntryFor(state.index, s.id).None? ==> PathFree(state, s)
    ensures Consistent(Write(state, s, false, hash).0, hash)
  {
    hide ToDict;
    hide FromPayload;
    hide SnapshotPath;
    SnapshotReadBack(s);
    assert ToDict(s).id == s.id by { PayloadId(s); }
    var next := Write(state, s, false, hash).0;
    assert forall e :: e in state.index ==> Backed(state, e, hash);
    assert forall e :: e in next.index ==> e in state.index || e == next.index[|state.index|];
  }

  lemma PayloadId(s: Snapshot)
    ensures ToDict(s).id == s.id
  {}

  /**
   Exactly when the path is free does creating a snapshot preserve every earlier load:
   an occupied path is overwritten, and the snapshot stored there is lost.
   */
  lemma LoadsPreservedIffPathFree(state: State, s: Snapshot, hash: Hash)
    requires Valid(s) && Consistent(state, hash) && EntryFor(state.index, s.id).None?
    ensures (forall id :: EntryFor(state.index, id).Some? ==> Load(Write(state, s, false, hash).0, id, hash) == Load(state, id, hash))
        <==> PathFree(state, s)
  {
    if PathFree(state, s) {
      StepKeeps(state, s, hash);
    } else {
      var e :| e in state.index && e.path == SnapshotPath(s, false);
      OverwrittenIsLost(state, s, e, hash);
    }
  }

  lemma {:induction false} EntryOf(index: seq<IndexEntry>, e: IndexEntry)
    requires e in index && forall i, j :: 0 <= i < j < |index| ==> index[i].id != index[j].id
    ensures EntryFor(index, e.id) == Some(e)
  {
    if index[0].id != e.id {
      EntryOf(index[1..], e);
    } else {
      var k :| 0 <= k < |index| && index[k] == e;
    }
  }

  lemma LoadedId(state: State, e: IndexEntry, hash: Hash)
    requires EntryFor(state.index, e.id) == Some(e) && e.path in state.files
    requires Load(state, e.id, hash).Ok?
    ensures Load(state, e.id, hash).value.id == state.files[e.path].payload.id
  {}

  lemma OverwrittenIsLost(state: State, s: Snapshot, e: IndexEntry, hash: Hash)
    requires Consistent(state, hash) && EntryFor(state.index, s.id).None?
    requires e in state.index && e.path == SnapshotPath(s, false)
    ensures EntryFor(state.index, e.id) == Some(e)
    ensures Load(Write(state, s, false, hash).0, e.id, hash) != Load(state, e.id, hash)
  {
    hide ToDict;
    hide FromPayload;
    hide SnapshotPath;
    var next := Write(state, s, false, hash).0;
    EntryOf(state.index, e);
    IndexOnlyGrows(state, s, false, hash);
    assert Backed(state, e, hash);
    assert next.files[e.path].payload.id == s.id by { PayloadId(s); }
    assert Load(state, e.id, hash).Ok? by { BackedLoads(state, e, hash); }
    LoadedId(state, e, hash);
    if Load(next, e.id, hash).Ok? { LoadedId(next, e, hash); }
  }

  lemma BackedLoads(state: State, e: IndexEntry, hash: Hash)
    requires EntryFor(state.index, e.id) == Some(e) && Backed(state, e, hash)
    ensures Load(state, e.id, hash) == Ok(FromPayload(state.files[e.path].payload).value)
  {}

  /** Two ids that differ only in ':' against '_' share a file on the same date. */
  lemma PathsCanCollide(a: Snapshot, b: Snapshot)
    requires a.date == b.date && a.id == "a:b" && b.id == "a_b"
    ensures a.id != b.id && SnapshotPath(a, false) == SnapshotPath(b, false) == Path(a.date, "portfolio_daily_a_b.json")
  {
    assert a.id[1] != b.id[1];
    assert ReplaceColons("a:b") == "a_b" == ReplaceColons("a_b");
  }

  /** Two ids that become the same file name: equal but for colons against underscores. */
  ghost predicate SameFileName(a: string, b: string) {
    |a| == |b| && forall i :: 0 <= i < |a| ==> a[i] == b[i] || (a[i] in {':', '_'} && b[i] in {':', '_'})
  }

  lemma CancelEnds(prefix: string, a: string, b: string, suffix: string)
    ensures prefix + a + suffix == prefix + b + suffix <==> a == b
  {
    var x, y := prefix + a + suffix, prefix + b + suffix;
    if x == y {
      assert |a| == |b|;
      assert forall i :: 0 <= i < |a| ==> x[|prefix| + i] == a[i] && y[|prefix| + i] == b[i];
    }
  }

  lemma ReplacedEqual(a: string, b: string)
    ensures ReplaceColons(a) == ReplaceColons(b) <==> SameFileName(a, b)
  {
    if ReplaceColons(a) == ReplaceColons(b) {
      forall i | 0 <= i < |a| ensures a[i] == b[i] || (a[i] in {':', '_'} && b[i] in {':', '_'}) {
        assert ReplaceColons(a)[i] == ReplaceColons(b)[i];
      }
    }
  }

  /** Exactly when two snapshots share a file. */
  lemma PathsCollideIff(a: Snapshot, b: Snapshot)
    ensures SnapshotPath(a, false) == SnapshotPath(b, false) <==> a.date == b.date && SameFileName(a.id, b.id)
  {
    PlainPath(a);
    PlainPath(b);
    ReplacedEqual(a.id, b.id);
    var x, y := ReplaceColons(a.id), ReplaceColons(b.id);
    hide ReplaceColons;
    hide SnapshotPath;
    CancelEnds("portfolio_daily_", x, y, ".json");
  }

  lemma PlainPath(s: Snapshot)
    ensures SnapshotPath(s, false) == Path(s.date, "portfolio_daily_" + ReplaceColons(s.id) + ".json")
  {
    assert ReplaceColons(s.id) + "" == ReplaceColons(s.id);
    assert "portfolio_daily_" + ReplaceColons(s.id) + "" == "portfolio_daily_" + ReplaceColons(s.id);
  }

  lemma TwoDigitsEqual(m: nat, n: nat)
    requires m < 100 && n < 100
    ensures TwoDigits(m) == TwoDigits(n) <==> m == n
  {
    assert TwoDigits(m)[0] == '0' + (m / 10) as char && TwoDigits(m)[1] == '0' + (m % 10) as char;
    assert TwoDigits(n)[0] == '0' + (n / 10) as char && TwoDigits(n)[1] == '0' + (n % 10) as char;
  }

  /** The clock in a forced file name tells seconds of the day apart, and nothing else. */
  lemma ClockEqual(s: int, t: int)
    ensures Clock(s) == Clock(t) <==> s % 86400 == t % 86400
  {
    var h, m, c := s % 86400 / 3600, s % 3600 / 60, s % 60;
    var h', m', c' := t % 86400 / 3600, t % 3600 / 60, t % 60;
    TwoDigitsEqual(h, h');
    TwoDigitsEqual(m, m');
    TwoDigitsEqual(c, c');
    ClockParts(s);
    ClockParts(t);
    var x, y := Clock(s), Clock(t);
    assert x[..2] == TwoDigits(h) && x[2..4] == TwoDigits(m) && x[4..] == TwoDigits(c);
    assert y[..2] == TwoDigits(h') && y[2..4] == TwoDigits(m') && y[4..] == TwoDigits(c');
  }

  lemma ClockParts(t: int)
    ensures t % 86400 == 3600 * (t % 86400 / 3600) + 60 * (t % 3600 / 60) + t % 60
  {
    HourOfDay(t);
    MinuteOfHour(t);
  }

  lemma HourOfDay(t: int)
    ensures t % 86400 % 3600 == t % 3600
  {
    assert t == 3600 * (24 * (t / 86400) + t % 86400 / 3600) + t % 86400 % 3600;
  }

  lemma MinuteOfHour(t: int)
    ensures t % 3600 % 60 == t % 60
  {
    assert t == 60 * (60 * (t / 3600) + t % 3600 / 60) + t % 3600 % 60;
  }

  /** Two forced snapshots of one id share a file exactly when they were generated on the same date at the same second. */
  lemma ForcedPathsCollideIff(a: Snapshot, b: Snapshot)
    requires a.id == b.id
    ensures SnapshotPath(a, true) == SnapshotPath(b, true) <==> a.date == b.date && a.generated % 86400 == b.generated % 86400
  {
    ClockEqual(a.generated, b.generated);
    var start, x, y := "portfolio_daily_" + ReplaceColons(a.id), Clock(a.generated), Clock(b.generated);
    hide Clock;
    hide ReplaceColons;
    CancelEnds(start + "_", x, y, ".json");
    assert start + ("_" + x) == start + "_" + x && start + ("_" + y) == start + "_" + y;
  }

  // ----- runs -----

  function Run(state: State, calls: seq<Snapshot>, hash: Hash): State {
    if calls == [] then state else Write(Run(state, calls[..|calls| - 1], hash), calls[|calls| - 1], false, hash).0
  }

  /** Within a run, different ids are written to different files. */
  ghost predicate InjectivePaths(calls: seq<Snapshot>) {
    forall i, j :: 0 <= i < |calls| && 0 <= j < |calls| && calls[i].id != calls[j].id ==>
      SnapshotPath(calls[i], false) != SnapshotPath(calls[j], false)
  }

  ghost predicate AllValid(calls: seq<Snapshot>) { forall s :: s in calls ==> Valid(s) }

  const EMPTY := State([], map[])

  /** Every entry of a run was written by one of its calls. */
  ghost predicate WrittenBy(state: State, calls: seq<Snapshot>) {
    forall e :: e in state.index ==> exists k :: 0 <= k < |calls| && calls[k].id == e.id && SnapshotPath(calls[k], false) == e.path
  }

  /** Safety over whole runs: ids and paths stay unique and every entry stays backed by its own file. */
  lemma {:induction false} RunConsistent(calls: seq<Snapshot>, hash: Hash)
    requires AllValid(calls) && InjectivePaths(calls)
    ensures Consistent(Run(EMPTY, calls, hash), hash) && WrittenBy(Run(EMPTY, calls, hash), calls)
  {
    hide SnapshotPath;
    hide Consistent;
    hide Write;
    hide Valid;
    hide WrittenBy;
    hide InjectivePaths;
    if calls == [] {
      EmptyConsistent(hash);
    } else {
      var front, s := calls[..|calls| - 1], calls[|calls| - 1];
      assert calls == front + [s];
      assert s in calls;
      PrefixInjective(front, [s]);
      RunConsistent(front, hash);
      RunStep(front, s, hash);
    }
  }

  lemma EmptyConsistent(hash: Hash)
    ensures Consistent(EMPTY, hash) && WrittenBy(EMPTY, [])
  {}

  lemma RunPathFree(front: seq<Snapshot>, s: Snapshot, hash: Hash)
    requires InjectivePaths(front + [s]) && WrittenBy(Run(EMPTY, front, hash), front)
    ensures EntryFor(Run(EMPTY, front, hash).index, s.id).None? ==> PathFree(Run(EMPTY, front, hash), s)
  {
    hide SnapshotPath;
    hide Run;
    var state, all := Run(EMPTY, front, hash), front + [s];
    if EntryFor(state.index, s.id).None? {
      forall e | e in state.index ensures e.path != SnapshotPath(s, false) {
        var k :| 0 <= k < |front| && front[k].id == e.id && SnapshotPath(front[k], false) == e.path;
        assert all[k] == front[k] && all[|front|] == s;
      }
    }
  }

  lemma RunStep(front: seq<Snapshot>, s: Snapshot, hash: Hash)
    requires Valid(s) && InjectivePaths(front + [s])
    requires Consistent(Run(EMPTY, front, hash), hash) && WrittenBy(Run(EMPTY, front, hash), front)
    ensures var state, next := Run(EMPTY, front, hash), Run(EMPTY, front + [s], hash);
      && next == Write(state, s, false, hash).0
      && Consistent(next, hash) && WrittenBy(next, front + [s])
      && forall id :: EntryFor(state.index, id).Some? ==> Load(next, id, hash) == Load(state, id, hash)
  {
    hide SnapshotPath;
    hide Consistent;
    hide Load;
    hide ToDict;
    hide ReadsBack;
    var all := front + [s];
    assert all[..|front|] == front && all[|front|] == s;
    var state, next := Run(EMPTY, front, hash), Run(EMPTY, all, hash);
    RunPathFree(front, s, hash);
    StepKeeps(state, s, hash);
    IndexOnlyGrows(state, s, false, hash);
    forall e | e in next.index
      ensures exists k :: 0 <= k < |all| && all[k].id == e.id && SnapshotPath(all[k], false) == e.path
    {
      if e in state.index {
        var k :| 0 <= k < |front| && front[k].id == e.id && SnapshotPath(front[k], false) == e.path;
        assert all[k] == front[k];
      } else {
        assert all[|front|].id == e.id && SnapshotPath(all[|front|], false) == e.path;
      }
    }
  }

  lemma PrefixInjective(calls: seq<Snapshot>, more: seq<Snapshot>)
    requires InjectivePaths(calls + more)
    ensures InjectivePaths(calls)
  {
    assert forall k :: 0 <= k < |calls| ==> (calls + more)[k] == calls[k];
  }

  /**
   Once stored, always the same: whatever later calls are made, `load_snapshot(id)`
   keeps returning what it returned after the calls so far.
   */
  lemma {:induction false} LoadIsStable(calls: seq<Snapshot>, more: seq<Snapshot>, id: string, hash: Hash)
    requires AllValid(calls + more) && InjectivePaths(calls + more)
    requires EntryFor(Run(EMPTY, calls, hash).index, id).Some?
    ensures EntryFor(Run(EMPTY, calls + more, hash).index, id) == EntryFor(Run(EMPTY, calls, hash).index, id)
    ensures Load(Run(EMPTY, calls + more, hash), id, hash) == Load(Run(EMPTY, calls, hash), id, hash)
    ensures Run(EMPTY, calls, hash).index <= Run(EMPTY, calls + more, hash).index
  {
    hide SnapshotPath;
    hide Load;
    hide Write;
    hide Valid;
    hide Consistent;
    if more == [] {
      assert calls + more == calls;
    } else {
      var front, s := calls + more[..|more| - 1], more[|more| - 1];
      assert calls + more == front + [s];
      PrefixInjective(front, [s]);
      assert AllValid(front) && s in calls + more;
      LoadIsStable(calls, more[..|more| - 1], id, hash);
      RunConsistent(front, hash);
      RunStep(front, s, hash);
      IndexOnlyGrows(Run(EMPTY, front, hash), s, false, hash);
    }
  }

  /** The first snapshot stored under an id is the one that is loaded, from its creation on. */
  lemma FirstStoredIsLoaded(calls: seq<Snapshot>, s: Snapshot, more: seq<Snapshot>, hash: Hash)
    requires AllValid(calls + [s] + more) && InjectivePaths(calls + [s] + more)
    requires EntryFor(Run(EMPTY, calls, hash).index, s.id).None? && !AnyTinyNegative(s)
    ensures FromPayload(ToDict(s)).Ok?
    ensures Load(Run(EMPTY, calls + [s] + more, hash), s.id, hash) == Ok(FromPayload(ToDict(s)).value)
    ensures ToDict(FromPayload(ToDict(s)).value) == ToDict(s)
  {
    hide SnapshotPath;
    hide Valid;
    hide Consistent;
    hide ToDict;
    hide FromPayload;
    var all := calls + [s];
    assert s in all + more && AllValid(calls);
    PrefixInjective(all, more);
    PrefixInjective(calls, [s]);
    SnapshotReadBack(s);
    assert all[..|calls|] == calls;
    var state, next := Run(EMPTY, calls, hash), Run(EMPTY, all, hash);
    assert next == Write(state, s, false, hash).0;
    EntryForAppend(state.index, NewEntry(s, SnapshotPath(s, false), hash(ToDict(s))), s.id);
    LoadIsStable(all, more, s.id, hash);
  }

  /** The latest snapshot is the one stored under the greatest (reference time, id). */
  lemma LatestIsMaximum(state: State, hash: Hash) returns (e: IndexEntry)
    requires state.index != []
    ensures e in state.index && Latest(state, hash) == Some(Load(state, e.id, hash))
    ensures forall other :: other in state.index ==>
      other.reference < e.reference || (other.reference == e.reference && TextLe(other.id, e.id))
  {
    hide SortBy;
    EntryOrder();
    SortIsSorted(state.index, EntryLe);
    MemberOfSort(state.index, EntryLe);
    var entries := List(state);
    e := entries[|entries| - 1];
    assert e in entries;
    forall other | other in state.index ensures EntryLe(other, e) {
      var k :| 0 <= k < |entries| && entries[k] == other;
      if k == |entries| - 1 { TextLeTotal(e.id, e.id); }
    }
  }

  lemma EntryOrder()
    ensures TotalPreorder(EntryLe)
  {
    forall a: IndexEntry, b: IndexEntry ensures EntryLe(a, b) || EntryLe(b, a) { TextLeTotal(a.id, b.id); }
    forall a: IndexEntry, b: IndexEntry, c: IndexEntry | EntryLe(a, b) && EntryLe(b, c) ensures EntryLe(a, c) {
      if a.reference == b.reference == c.reference { TextLeTransitive(a.id, b.id, c.id); }
    }
  }
}

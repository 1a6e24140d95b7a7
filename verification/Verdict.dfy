/** The server-setting experiment: records of runs, the per-cell counters, and the verdict over them. */
module Verdict {
  import opened Bytes

  const HYBRID := "X25519MLKEM768"
  const CLASSICAL := "X25519"

  /** The metrics of a run that the verdict reads.  `None` is Python's `None`. */
  datatype Metrics = Metrics(
    handshakeResult: string, hrrPcap: Option<bool>, hrrLog: Option<bool>, serverHelloCount: Option<nat>,
    finalGroup: Option<string>, precondition: Option<bool>, downgradeFlagged: Option<bool>)

  /** An entry of a stored dictionary: absent, stored as null, or a text. */
  datatype Entry = Missing | Null | Text(text: string)

  datatype Provenance = Provenance(serverVersion: Entry, serverSetting: Entry, serverBin: Entry, clientBin: Entry)

  /** A stored run.  `artifactsComplete` says that every required artifact is named, exists and is not empty. */
  datatype RunRecord = RunRecord(
    faultType: string, repetition: int, metrics: Metrics, manipulationVerified: bool, artifactsComplete: bool,
    provenance: Provenance, explicitWarning: bool, mismatchInSingleOutput: bool)

  /** A cell: server version and setting.  A null in the record is a component of its own, Python's `None`. */
  datatype Key = Key(version: Option<string>, setting: Option<string>)

  // ---- counting

  datatype Counts = Counts(
    n: nat, repetitions: set<int>, precondition: nat, success: nat, failure: nat, hrrPcap: nat, hrrLog: nat,
    hybrid: nat, classical: nat, unknown: nat, explicitWarning: nat, mismatch: nat, artifacts: nat, provenance: nat,
    hrrAgree: nat, singleServerHello: nat)

  const ZERO := Counts(0, {}, 0, 0, 0, 0, 0, 0, 0, 0, 0, 0, 0, 0, 0, 0)

  /** The entry counts as true: it is there, not null and not empty. */
  predicate IsSet(entry: Entry) {
    entry.Text? && entry.text != ""
  }

  predicate Precondition(r: RunRecord) {
    r.metrics.precondition == Some(true)
  }

  predicate Success(r: RunRecord) {
    r.metrics.handshakeResult == "success"
  }

  predicate HrrPcap(r: RunRecord) {
    r.metrics.hrrPcap == Some(true)
  }

  predicate Hybrid(r: RunRecord) {
    r.metrics.finalGroup == Some(HYBRID)
  }

  predicate Classical(r: RunRecord) {
    r.metrics.finalGroup == Some(CLASSICAL)
  }

  predicate Artifacts(r: RunRecord) {
    r.artifactsComplete
  }

  predicate ProvenanceComplete(r: RunRecord) {
    IsSet(r.provenance.serverBin) && IsSet(r.provenance.clientBin)
  }

  /** Two missing answers agree, as two values of Python's `None` are equal. */
  predicate HrrAgree(r: RunRecord) {
    r.metrics.hrrLog == r.metrics.hrrPcap
  }

  predicate SingleServerHello(r: RunRecord) {
    r.metrics.serverHelloCount == Some(1)
  }

  /** A condition as the number a counter adds. */
  function One(condition: bool): nat {
    if condition then 1 else 0
  }

  /** One pass of the counting loop over one record of a cell. */
  function Bump(c: Counts, r: RunRecord): Counts {
    Counts(
      c.n + 1, c.repetitions + {r.repetition}, c.precondition + One(Precondition(r)), c.success + One(Success(r)),
      c.failure + One(!Success(r)), c.hrrPcap + One(HrrPcap(r)), c.hrrLog + One(r.metrics.hrrLog == Some(true)),
      c.hybrid + One(Hybrid(r)), c.classical + One(Classical(r)), c.unknown + One(!Hybrid(r) && !Classical(r)),
      c.explicitWarning + One(r.explicitWarning), c.mismatch + One(r.mismatchInSingleOutput),
      c.artifacts + One(Artifacts(r)), c.provenance + One(ProvenanceComplete(r)), c.hrrAgree + One(HrrAgree(r)),
      c.singleServerHello + One(SingleServerHello(r)))
  }

  predicate Relevant(r: RunRecord) {
    r.faultType == "server-setting"
  }

  /** Looking an entry up raises `KeyError` if it is absent; a null is found. */
  function Lookup(entry: Entry): Result<Option<string>> {
    match entry
    case Missing => Err(KeyError)
    case Null => Ok(None)
    case Text(text) => Ok(Some(text))
  }

  /** The cell of a record. */
  function KeyOf(r: RunRecord): Result<Key> {
    var version :- Lookup(r.provenance.serverVersion);
    var setting :- Lookup(r.provenance.serverSetting);
    Ok(Key(version, setting))
  }

  type Table = map<Key, Counts>

  function Add(table: Table, key: Key, r: RunRecord): Table {
    table[key := Bump(if key in table then table[key] else ZERO, r)]
  }

  function Step(table: Result<Table>, r: RunRecord): Result<Table> {
    var t :- table;
    if !Relevant(r) then table else
    var key :- KeyOf(r);
    Ok(Add(t, key, r))
  }

  /** What counting all records yields. */
  function Tally(records: seq<RunRecord>): Result<Table> {
    if records == [] then Ok(map[]) else Step(Tally(records[..|records| - 1]), records[|records| - 1])
  }

  /** `comparison_v12`, over the records of a directory in the order they are read. */
  method ComparisonV12(records: seq<RunRecord>) returns (r: Result<Table>)
    ensures r == Tally(records)
  {
    hide Precondition, Success, HrrPcap, Hybrid, Classical, Artifacts, ProvenanceComplete, HrrAgree, SingleServerHello;
    var table: Table := map[];
    var i := 0;
    while i < |records|
      invariant 0 <= i <= |records|
      invariant Tally(records[..i]) == Ok(table)
    {
      var record := records[i];
      assert records[..i + 1][..i] == records[..i];
      TallyFails(records, i + 1);
      if Relevant(record) {
        var key :- KeyOf(record);
        var count := if key in table then table[key] else ZERO;
        count := count.(n := count.n + 1, repetitions := count.repetitions + {record.repetition});
        count := CountMetrics(count, record);
        table := table[key := count];
      }
      i := i + 1;
    }
    assert records[..|records|] == records;
    return Ok(table);
  }

  /** The counters of the loop body after `n` and `repetitions`, in the order the source updates them. */
  method CountMetrics(start: Counts, r: RunRecord) returns (count: Counts)
    ensures count == Bump(start, r).(n := start.n, repetitions := start.repetitions)
  {
    hide Precondition, Success, HrrPcap, Artifacts, ProvenanceComplete, HrrAgree, SingleServerHello;
    count := start.(
      precondition := start.precondition + One(Precondition(r)), success := start.success + One(Success(r)),
      failure := start.failure + One(!Success(r)), hrrPcap := start.hrrPcap + One(HrrPcap(r)),
      hrrLog := start.hrrLog + One(r.metrics.hrrLog == Some(true)));
    if Hybrid(r) {
      count := count.(hybrid := count.hybrid + 1);
    } else if Classical(r) {
      count := count.(classical := count.classical + 1);
    } else {
      count := count.(unknown := count.unknown + 1);
    }
    count := count.(
      explicitWarning := count.explicitWarning + One(r.explicitWarning),
      mismatch := count.mismatch + One(r.mismatchInSingleOutput), artifacts := count.artifacts + One(Artifacts(r)),
      provenance := count.provenance + One(ProvenanceComplete(r)), hrrAgree := count.hrrAgree + One(HrrAgree(r)),
      singleServerHello := count.singleServerHello + One(SingleServerHello(r)));
  }

  lemma {:induction false} TallyFails(records: seq<RunRecord>, i: nat)
    requires i <= |records|
    ensures Tally(records[..i]).Err? ==> Tally(records) == Tally(records[..i])
    decreases |records| - i
  {
    if i == |records| {
      assert records[..i] == records;
    } else {
      TallyFails(records, i + 1);
      assert records[..i + 1][..i] == records[..i];
    }
  }

  // ---- counters as numbers of records

  /** The records of one cell, in order. */
  function Cell(records: seq<RunRecord>, key: Key): seq<RunRecord> {
    if records == [] then []
    else
      var r := records[|records| - 1];
      Cell(records[..|records| - 1], key) + if Relevant(r) && KeyOf(r) == Ok(key) then [r] else []
  }

  function CountAll(records: seq<RunRecord>): Counts {
    if records == [] then ZERO else Bump(CountAll(records[..|records| - 1]), records[|records| - 1])
  }

  lemma CountSnoc(records: seq<RunRecord>, r: RunRecord)
    ensures CountAll(records + [r]) == Bump(CountAll(records), r)
  {
    assert (records + [r])[..|records|] == records;
  }

  /** A cell is in the table exactly when it has records, and its counters count those records. */
  lemma {:induction false} TallyCell(records: seq<RunRecord>, key: Key)
    requires Tally(records).Ok?
    ensures var table, cell := Tally(records).value, Cell(records, key);
            (key in table <==> cell != []) && (key in table ==> table[key] == CountAll(cell))
  {
    hide Bump, CountAll;
    if records != [] {
      var front, r := records[..|records| - 1], records[|records| - 1];
      TallyCell(front, key);
      CountSnoc(Cell(front, key), r);
      CountNone();
      assert Cell(front, key) + [] == Cell(front, key);
    }
  }

  lemma CountNone()
    ensures CountAll([]) == ZERO
  {
  }

  function CountIf(records: seq<RunRecord>, p: RunRecord -> bool): nat {
    if records == [] then 0 else CountIf(records[..|records| - 1], p) + One(p(records[|records| - 1]))
  }

  function Repetitions(records: seq<RunRecord>): set<int> {
    set r | r in records :: r.repetition
  }

  lemma {:induction false} CountersCount(records: seq<RunRecord>)
    ensures var c := CountAll(records);
            && c.n == |records| && c.repetitions == Repetitions(records)
            && c.precondition == CountIf(records, Precondition) && c.success == CountIf(records, Success)
            && c.artifacts == CountIf(records, Artifacts) && c.provenance == CountIf(records, ProvenanceComplete)
  {
    hide Precondition, Success, HrrPcap, Hybrid, Classical, Artifacts, ProvenanceComplete, HrrAgree,
         SingleServerHello, One, Repetitions;
    if records == [] {
      assert Repetitions([]) == {} by { RepetitionsNone(); }
    } else {
      var front, r := records[..|records| - 1], records[|records| - 1];
      CountersCount(front);
      assert records == front + [r];
      RepetitionsSnoc(front, r);
    }
  }

  lemma {:induction false} HelloCountersCount(records: seq<RunRecord>)
    ensures var c := CountAll(records);
            && c.hrrPcap == CountIf(records, HrrPcap) && c.hybrid == CountIf(records, Hybrid)
            && c.classical == CountIf(records, Classical) && c.hrrAgree == CountIf(records, HrrAgree)
            && c.singleServerHello == CountIf(records, SingleServerHello)
  {
    hide Precondition, Success, HrrPcap, Hybrid, Classical, Artifacts, ProvenanceComplete, HrrAgree,
         SingleServerHello, One;
    if records != [] {
      HelloCountersCount(records[..|records| - 1]);
    }
  }

  predicate HrrLog(r: RunRecord) {
    r.metrics.hrrLog == Some(true)
  }

  predicate Warned(r: RunRecord) {
    r.explicitWarning
  }

  predicate Mismatched(r: RunRecord) {
    r.mismatchInSingleOutput
  }

  /** The counters the report prints besides: every record is a success or a failure, and ends hybrid, classical or
      unknown. */
  lemma {:induction false} ReportCountersCount(records: seq<RunRecord>)
    ensures var c := CountAll(records);
            && c.success + c.failure == c.n && c.hybrid + c.classical + c.unknown == c.n
            && c.hrrLog == CountIf(records, HrrLog)
            && c.explicitWarning == CountIf(records, Warned) && c.mismatch == CountIf(records, Mismatched)
  {
    hide Precondition, Success, HrrPcap, Artifacts, ProvenanceComplete, HrrAgree, SingleServerHello;
    if records != [] {
      ReportCountersCount(records[..|records| - 1]);
    }
  }

  /** The indices of the records with a property. */
  function Those(records: seq<RunRecord>, p: RunRecord -> bool): set<int> {
    set i | 0 <= i < |records| && p(records[i])
  }

  lemma {:induction false} CountIfThose(records: seq<RunRecord>, p: RunRecord -> bool)
    ensures CountIf(records, p) == |Those(records, p)|
  {
    if records == [] {
      assert Those(records, p) == {};
    } else {
      var n := |records| - 1;
      var front := records[..n];
      CountIfThose(front, p);
      assert Those(records, p) == Those(front, p) + if p(records[n]) then {n} else {};
    }
  }

  /** The counters the verdict reads, as numbers of records with a field of that value. */
  lemma CountersOverFields(records: seq<RunRecord>)
    ensures var c := CountAll(records);
            && c.success == |set i | 0 <= i < |records| && records[i].metrics.handshakeResult == "success"|
            && c.precondition == |set i | 0 <= i < |records| && records[i].metrics.precondition == Some(true)|
            && c.artifacts == |set i | 0 <= i < |records| && records[i].artifactsComplete|
            && c.singleServerHello == |set i | 0 <= i < |records| && records[i].metrics.serverHelloCount == Some(1)|
            && c.hrrPcap == |set i | 0 <= i < |records| && records[i].metrics.hrrPcap == Some(true)|
            && c.hrrAgree == |set i | 0 <= i < |records| && records[i].metrics.hrrLog == records[i].metrics.hrrPcap|
            && c.hybrid == |set i | 0 <= i < |records| && records[i].metrics.finalGroup == Some("X25519MLKEM768")|
            && c.classical == |set i | 0 <= i < |records| && records[i].metrics.finalGroup == Some("X25519")|
  {
    hide CountAll, CountIf;
    CountersCount(records);
    HelloCountersCount(records);
    CountIfThose(records, Success);
    CountIfThose(records, Precondition);
    CountIfThose(records, Artifacts);
    CountIfThose(records, SingleServerHello);
    CountIfThose(records, HrrPcap);
    CountIfThose(records, HrrAgree);
    CountIfThose(records, Hybrid);
    CountIfThose(records, Classical);
    assert Those(records, Success) == set i | 0 <= i < |records| && records[i].metrics.handshakeResult == "success";
    assert Those(records, Precondition)
           == set i | 0 <= i < |records| && records[i].metrics.precondition == Some(true);
    assert Those(records, Artifacts) == set i | 0 <= i < |records| && records[i].artifactsComplete;
    assert Those(records, SingleServerHello)
           == set i | 0 <= i < |records| && records[i].metrics.serverHelloCount == Some(1);
    assert Those(records, HrrPcap) == set i | 0 <= i < |records| && records[i].metrics.hrrPcap == Some(true);
    assert Those(records, HrrAgree)
           == set i | 0 <= i < |records| && records[i].metrics.hrrLog == records[i].metrics.hrrPcap;
    assert Those(records, Hybrid)
           == set i | 0 <= i < |records| && records[i].metrics.finalGroup == Some("X25519MLKEM768");
    assert Those(records, Classical)
           == set i | 0 <= i < |records| && records[i].metrics.finalGroup == Some("X25519");
  }

  lemma RepetitionsNone()
    ensures Repetitions([]) == {}
  {
  }

  lemma RepetitionsSnoc(records: seq<RunRecord>, r: RunRecord)
    ensures Repetitions(records + [r]) == Repetitions(records) + {r.repetition}
  {
    assert r in records + [r];
    assert forall x :: x in records + [r] <==> x in records || x == r;
  }

  predicate All(records: seq<RunRecord>, p: RunRecord -> bool) {
    forall i :: 0 <= i < |records| ==> p(records[i])
  }

  predicate NoneOf(records: seq<RunRecord>, p: RunRecord -> bool) {
    forall i :: 0 <= i < |records| ==> !p(records[i])
  }

  lemma {:induction false} CountIfAll(records: seq<RunRecord>, p: RunRecord -> bool)
    ensures CountIf(records, p) <= |records|
    ensures CountIf(records, p) == |records| <==> All(records, p)
    ensures CountIf(records, p) == 0 <==> NoneOf(records, p)
  {
    if records != [] {
      var front := records[..|records| - 1];
      CountIfAll(front, p);
      assert forall i :: 0 <= i < |records| ==> records[i] == if i < |front| then front[i] else records[|front|];
    }
  }

  // ---- the verdict

  datatype Expectation = Expectation(hrr: bool, finalGroup: string)

  /** An item of the expected matrix; the matrix is a dictionary, iterated in insertion order. */
  datatype Item = Item(key: Key, expected: Expectation)

  datatype Failure =
    | NoRecords(key: Key)
    | WrongRepetitions(key: Key, seen: set<int>, n: nat)
    | FieldShort(key: Key, field: string, count: nat, n: nat)
    | WrongHrr(key: Key, count: nat, n: nat, all: bool)
    | WrongFinal(key: Key, group: string, count: nat, n: nat)

  /** The repetitions a cell must have: 1 to `n`. */
  function Range(n: int): (r: set<int>)
    ensures forall k :: k in r <==> 1 <= k <= n
    decreases if n < 0 then 0 else n
  {
    if n < 1 then {} else Range(n - 1) + {n}
  }

  /** `FIELD_LABELS`: the counters that must equal the number of records, in order. */
  function Fields(c: Counts): seq<(string, nat)> {
    [("precondition", c.precondition), ("artifacts", c.artifacts), ("provenance", c.provenance),
     ("success", c.success), ("hrr agree", c.hrrAgree), ("single server_hello", c.singleServerHello)]
  }

  function FieldFailures(key: Key, n: nat, fields: seq<(string, nat)>): seq<Failure> {
    if fields == [] then []
    else
      var last := fields[|fields| - 1];
      FieldFailures(key, n, fields[..|fields| - 1]) + Unless(last.1 == n, FieldShort(key, last.0, last.1, n))
  }

  function Unless(ok: bool, failure: Failure): seq<Failure> {
    if ok then [] else [failure]
  }

  /** What one cell of the matrix contributes to the list of failures. */
  function CellFailures(table: Table, item: Item, repetitions: int): seq<Failure> {
    if item.key !in table then [NoRecords(item.key)]
    else
      var c := table[item.key];
      var final := if item.expected.finalGroup == HYBRID then c.hybrid else c.classical;
      Unless(c.n == repetitions && c.repetitions == Range(repetitions), WrongRepetitions(item.key, c.repetitions, c.n))
      + FieldFailures(item.key, c.n, Fields(c))
      + Unless(c.hrrPcap == (if item.expected.hrr then c.n else 0),
               WrongHrr(item.key, c.hrrPcap, c.n, item.expected.hrr))
      + Unless(final == c.n, WrongFinal(item.key, item.expected.finalGroup, final, c.n))
  }

  function AllFailures(table: Table, repetitions: int, items: seq<Item>): seq<Failure> {
    if items == [] then []
    else AllFailures(table, repetitions, items[..|items| - 1]) + CellFailures(table, items[|items| - 1], repetitions)
  }

  /** `cve_verdict`: true exactly when no failure was collected. */
  method CveVerdict(table: Table, repetitions: int, expected: seq<Item>) returns (ok: bool, failures: seq<Failure>)
    ensures failures == AllFailures(table, repetitions, expected)
    ensures ok <==> failures == []
  {
    failures := [];
    var i := 0;
    while i < |expected|
      invariant 0 <= i <= |expected|
      invariant failures == AllFailures(table, repetitions, expected[..i])
    {
      assert expected[..i + 1][..i] == expected[..i];
      var more := JudgeCell(table, expected[i], repetitions);
      failures := failures + more;
      i := i + 1;
    }
    assert expected[..|expected|] == expected;
    ok := failures == [];
  }

  /** The inner loop of `cve_verdict`, over the counters that must equal the number of records. */
  method JudgeFields(key: Key, n: nat, fields: seq<(string, nat)>) returns (failures: seq<Failure>)
    ensures failures == FieldFailures(key, n, fields)
  {
    failures := [];
    var i := 0;
    while i < |fields|
      invariant 0 <= i <= |fields|
      invariant failures == FieldFailures(key, n, fields[..i])
    {
      assert fields[..i + 1][..i] == fields[..i];
      if fields[i].1 != n {
        failures := failures + [FieldShort(key, fields[i].0, fields[i].1, n)];
      }
      i := i + 1;
    }
    assert fields[..|fields|] == fields;
  }

  /** The loop body of `cve_verdict` for one cell. */
  method JudgeCell(table: Table, item: Item, repetitions: int) returns (failures: seq<Failure>)
    ensures failures == CellFailures(table, item, repetitions)
  {
    hide Fields, FieldFailures, Range, Unless;
    if item.key !in table {
      return [NoRecords(item.key)];
    }
    var count := table[item.key];
    var n := count.n;
    failures := Unless(n == repetitions && count.repetitions == Range(repetitions),
                       WrongRepetitions(item.key, count.repetitions, n));
    var short := JudgeFields(item.key, n, Fields(count));
    failures := failures + short;
    failures := failures + Unless(count.hrrPcap == (if item.expected.hrr then n else 0),
                                  WrongHrr(item.key, count.hrrPcap, n, item.expected.hrr));
    var final := if item.expected.finalGroup == HYBRID then count.hybrid else count.classical;
    failures := failures + Unless(final == n, WrongFinal(item.key, item.expected.finalGroup, final, n));
  }

  // ---- the verdict, pointwise

  /** The group a run must end with: every expectation other than the hybrid one is judged as the classical one. */
  function Target(expected: Expectation): string {
    if expected.finalGroup == "X25519MLKEM768" then "X25519MLKEM768" else "X25519"
  }

  /** A run that individually meets everything its cell expects, its final group apart. */
  predicate Complete(r: RunRecord, expected: Expectation) {
    && r.metrics.handshakeResult == "success" && r.metrics.precondition == Some(true) && r.artifactsComplete
    && r.provenance.serverBin !in {Missing, Null, Text("")} && r.provenance.clientBin !in {Missing, Null, Text("")}
    && r.metrics.serverHelloCount == Some(1)
    && r.metrics.hrrLog == r.metrics.hrrPcap && (r.metrics.hrrPcap == Some(true) <==> expected.hrr)
  }

  /** A run that individually meets everything its cell expects, as the verdict judges it. */
  predicate Meets(r: RunRecord, expected: Expectation) {
    Complete(r, expected) && r.metrics.finalGroup == Some(Target(expected))
  }

  /** Exactly one record for each repetition `1 .. n`, and no other. */
  predicate OneEach(records: seq<RunRecord>, n: int) {
    && (forall i :: 0 <= i < |records| ==> 1 <= records[i].repetition <= n)
    && (forall k :: 1 <= k <= n ==> k in Repetitions(records))
    && Distinct(records)
  }

  predicate Distinct(records: seq<RunRecord>) {
    forall i, j :: 0 <= i < j < |records| ==> records[i].repetition != records[j].repetition
  }

  /** A value as it is stored in a dictionary. */
  function Stored(value: Option<string>): Entry {
    if value.None? then Null else Text(value.value)
  }

  /** The record belongs to the cell. */
  predicate Belongs(r: RunRecord, key: Key) {
    && r.faultType == "server-setting"
    && r.provenance.serverVersion == Stored(key.version) && r.provenance.serverSetting == Stored(key.setting)
  }

  predicate HasRepetition(records: seq<RunRecord>, key: Key, k: int) {
    exists i :: 0 <= i < |records| && Belongs(records[i], key) && records[i].repetition == k
  }

  /** The cell has a record, and it has one for each repetition `1 .. n` and no other. */
  predicate Filled(records: seq<RunRecord>, key: Key, n: int) {
    && (exists i :: 0 <= i < |records| && Belongs(records[i], key))
    && (forall k :: 1 <= k <= n ==> HasRepetition(records, key, k))
    && NoneTwice(records, key)
    && (forall i :: 0 <= i < |records| && Belongs(records[i], key) ==> 1 <= records[i].repetition <= n)
  }

  predicate CellHolds(records: seq<RunRecord>, item: Item, n: int) {
    && Filled(records, item.key, n)
    && forall i :: 0 <= i < |records| && Belongs(records[i], item.key) ==> Meets(records[i], item.expected)
  }

  lemma BelongsExact(r: RunRecord, key: Key)
    ensures Belongs(r, key) <==> Relevant(r) && KeyOf(r) == Ok(key)
  {
  }

  lemma {:induction false} CellMember(records: seq<RunRecord>, key: Key, r: RunRecord)
    ensures r in Cell(records, key) <==> r in records && Belongs(r, key)
  {
    hide Belongs, Relevant, KeyOf;
    if records != [] {
      var front, last := records[..|records| - 1], records[|records| - 1];
      assert records == front + [last];
      BelongsExact(last, key);
      CellMember(front, key, r);
    }
  }

  /** No two records of the cell are of the same repetition. */
  predicate NoneTwice(records: seq<RunRecord>, key: Key) {
    forall i, j :: 0 <= i < j < |records| && Belongs(records[i], key) && Belongs(records[j], key) ==>
      records[i].repetition != records[j].repetition
  }

  lemma NoneTwiceSnoc(records: seq<RunRecord>, r: RunRecord, key: Key)
    ensures NoneTwice(records + [r], key) <==>
              && NoneTwice(records, key)
              && (Belongs(r, key) ==> forall x :: x in records && Belongs(x, key) ==> x.repetition != r.repetition)
  {
    hide Belongs;
    var more := records + [r];
    assert forall i :: 0 <= i < |records| ==> more[i] == records[i];
    assert more[|records|] == r;
    if NoneTwice(more, key) && Belongs(r, key) {
      forall x | x in records && Belongs(x, key)
        ensures x.repetition != r.repetition
      {
        var i :| 0 <= i < |records| && records[i] == x;
        assert more[i].repetition != more[|records|].repetition;
      }
    }
  }

  lemma {:induction false} CellDistinct(records: seq<RunRecord>, key: Key)
    ensures Distinct(Cell(records, key)) <==> NoneTwice(records, key)
  {
    hide Belongs, Relevant, KeyOf, Distinct, NoneTwice;
    if records == [] {
      NothingTwice(key);
    } else {
      var front, last := records[..|records| - 1], records[|records| - 1];
      assert records == front + [last];
      BelongsExact(last, key);
      CellDistinct(front, key);
      forall x
        ensures x in Cell(front, key) <==> x in front && Belongs(x, key)
      {
        CellMember(front, key, x);
      }
      DistinctSnoc(Cell(front, key), last);
      NoneTwiceSnoc(front, last, key);
      assert Cell(front, key) + [] == Cell(front, key);
    }
  }

  lemma NothingTwice(key: Key)
    ensures Distinct([]) && NoneTwice([], key)
  {
  }

  lemma DistinctSnoc(cell: seq<RunRecord>, r: RunRecord)
    ensures Distinct(cell + [r]) <==> Distinct(cell) && forall x :: x in cell ==> x.repetition != r.repetition
  {
    var more := cell + [r];
    assert forall i :: 0 <= i < |cell| ==> more[i] == cell[i];
    assert more[|cell|] == r;
    if Distinct(more) {
      forall x | x in cell
        ensures x.repetition != r.repetition
      {
        var i :| 0 <= i < |cell| && cell[i] == x;
        assert more[i].repetition != more[|cell|].repetition;
      }
    }
  }

  lemma CellAll(records: seq<RunRecord>, key: Key, p: RunRecord -> bool)
    ensures (forall i :: 0 <= i < |records| && Belongs(records[i], key) ==> p(records[i]))
            <==> All(Cell(records, key), p)
  {
    hide Cell, Belongs;
    var cell := Cell(records, key);
    if All(cell, p) {
      forall i | 0 <= i < |records| && Belongs(records[i], key)
        ensures p(records[i])
      {
        CellMember(records, key, records[i]);
      }
    }
    if forall i :: 0 <= i < |records| && Belongs(records[i], key) ==> p(records[i]) {
      forall j | 0 <= j < |cell|
        ensures p(cell[j])
      {
        CellMember(records, key, cell[j]);
      }
    }
  }

  lemma CellSome(records: seq<RunRecord>, key: Key, p: RunRecord -> bool)
    ensures (exists i :: 0 <= i < |records| && Belongs(records[i], key) && p(records[i]))
            <==> !NoneOf(Cell(records, key), p)
  {
    hide Cell, Belongs;
    var others := (r: RunRecord) => !p(r);
    CellAll(records, key, others);
    assert All(Cell(records, key), others) <==> NoneOf(Cell(records, key), p);
  }

  lemma FilledInCell(records: seq<RunRecord>, key: Key, n: int)
    ensures Filled(records, key, n) <==> Cell(records, key) != [] && OneEach(Cell(records, key), n)
  {
    hide Cell, Belongs, Distinct, NoneTwice, Repetitions;
    var cell := Cell(records, key);
    RepetitionsIndex(cell);
    CellDistinct(records, key);
    var inRange := (r: RunRecord) => 1 <= r.repetition <= n;
    CellAll(records, key, inRange);
    assert All(cell, inRange) <==> forall i :: 0 <= i < |cell| ==> 1 <= cell[i].repetition <= n;
    var any := (r: RunRecord) => true;
    CellSome(records, key, any);
    assert cell != [] ==> any(cell[0]);
    if i :| 0 <= i < |records| && Belongs(records[i], key) {
      assert any(records[i]);
    }
    assert cell != [] <==> exists i :: 0 <= i < |records| && Belongs(records[i], key);
    forall k
      ensures HasRepetition(records, key, k) <==> k in Repetitions(cell)
    {
      var p := (r: RunRecord) => r.repetition == k;
      CellSome(records, key, p);
      assert HasRepetition(records, key, k) <==>
               exists i :: 0 <= i < |records| && Belongs(records[i], key) && p(records[i]);
    }
  }

  /** The statement over the records is the one over the cell. */
  lemma CellHoldsInCell(records: seq<RunRecord>, item: Item, n: int)
    ensures CellHolds(records, item, n) <==>
              var cell := Cell(records, item.key);
              cell != [] && OneEach(cell, n) && forall i :: 0 <= i < |cell| ==> Meets(cell[i], item.expected)
  {
    hide Cell, Meets, Belongs, OneEach, Filled;
    FilledInCell(records, item.key, n);
    CellAll(records, item.key, (r: RunRecord) => Meets(r, item.expected));
  }

  lemma {:induction false} RangeSize(n: int)
    ensures |Range(n)| == if n < 0 then 0 else n
    decreases if n < 0 then 0 else n
  {
    if n <= 0 {
      assert Range(n) == {};
    } else {
      RangeSize(n - 1);
      assert Range(n) == Range(n - 1) + {n};
    }
  }

  /** There are at most as many repetitions as records, and as many only if no two records share one. */
  lemma {:induction false} RepetitionsSize(records: seq<RunRecord>)
    ensures |Repetitions(records)| <= |records|
    ensures |Repetitions(records)| == |records| <==> Distinct(records)
  {
    hide Repetitions;
    RepetitionsNone();
    if records != [] {
      var front, r := records[..|records| - 1], records[|records| - 1];
      assert records == front + [r];
      RepetitionsSize(front);
      RepetitionsSnoc(front, r);
      RepetitionsIndex(front);
      assert Distinct(records) <==> Distinct(front) && r.repetition !in Repetitions(front);
    }
  }

  lemma RepetitionsIndex(records: seq<RunRecord>)
    ensures forall k :: k in Repetitions(records) <==> exists i :: 0 <= i < |records| && records[i].repetition == k
    ensures forall i :: 0 <= i < |records| ==> records[i].repetition in Repetitions(records)
  {
  }

  lemma OneEachExact(records: seq<RunRecord>, n: int)
    requires records != []
    ensures OneEach(records, n) <==> |records| == n && Repetitions(records) == Range(n)
  {
    hide Repetitions;
    RepetitionsIndex(records);
    RepetitionsSize(records);
    RangeSize(n);
    if OneEach(records, n) {
      assert Repetitions(records) == Range(n);
    }
    if |records| == n && Repetitions(records) == Range(n) {
      forall i | 0 <= i < |records|
        ensures 1 <= records[i].repetition <= n
      {
        assert records[i].repetition in Range(n);
      }
    }
  }

  lemma FieldFailuresNone(key: Key, n: nat, c: Counts)
    ensures FieldFailures(key, n, Fields(c)) == []
            <==> c.precondition == n && c.artifacts == n && c.provenance == n && c.success == n && c.hrrAgree == n
                 && c.singleServerHello == n
  {
    hide Fields;
    var fields := Fields(c);
    FieldList(c);
    FieldFailuresEach(key, n, fields);
  }

  lemma FieldList(c: Counts)
    ensures var f := Fields(c);
            && |f| == 6
            && f[0].1 == c.precondition && f[1].1 == c.artifacts && f[2].1 == c.provenance && f[3].1 == c.success
            && f[4].1 == c.hrrAgree && f[5].1 == c.singleServerHello
  {
  }

  lemma {:induction false} FieldFailuresEach(key: Key, n: nat, fields: seq<(string, nat)>)
    ensures FieldFailures(key, n, fields) == [] <==> forall i :: 0 <= i < |fields| ==> fields[i].1 == n
  {
    if fields != [] {
      var front := fields[..|fields| - 1];
      FieldFailuresEach(key, n, front);
      assert forall i :: 0 <= i < |front| ==> front[i] == fields[i];
    }
  }

  lemma MeetsCounted(r: RunRecord, expected: Expectation)
    ensures Meets(r, expected) <==>
              && Precondition(r) && Artifacts(r) && ProvenanceComplete(r) && Success(r) && HrrAgree(r)
              && SingleServerHello(r) && (HrrPcap(r) <==> expected.hrr)
              && (if expected.finalGroup == HYBRID then Hybrid(r) else Classical(r))
  {
    SetEntries(r.provenance.serverBin);
    SetEntries(r.provenance.clientBin);
  }

  lemma SetEntries(entry: Entry)
    ensures IsSet(entry) <==> entry !in {Missing, Null, Text("")}
  {
    match entry
    case Missing =>
    case Null =>
    case Text(text) =>
  }

  lemma AllMeet(cell: seq<RunRecord>, expected: Expectation)
    ensures (forall i :: 0 <= i < |cell| ==> Meets(cell[i], expected)) <==>
              && All(cell, Precondition) && All(cell, Artifacts) && All(cell, ProvenanceComplete) && All(cell, Success)
              && All(cell, HrrAgree) && All(cell, SingleServerHello)
              && (if expected.hrr then All(cell, HrrPcap) else NoneOf(cell, HrrPcap))
              && (if expected.finalGroup == HYBRID then All(cell, Hybrid) else All(cell, Classical))
  {
    hide Precondition, Artifacts, ProvenanceComplete, Success, HrrAgree, SingleServerHello, HrrPcap, Hybrid, Classical,
         Meets;
    forall i | 0 <= i < |cell|
      ensures Meets(cell[i], expected) <==>
                && Precondition(cell[i]) && Artifacts(cell[i]) && ProvenanceComplete(cell[i]) && Success(cell[i])
                && HrrAgree(cell[i]) && SingleServerHello(cell[i]) && (HrrPcap(cell[i]) <==> expected.hrr)
                && (if expected.finalGroup == HYBRID then Hybrid(cell[i]) else Classical(cell[i]))
    {
      MeetsCounted(cell[i], expected);
    }
  }

  /** A cell produces no failure exactly when it holds. */
  lemma CellExact(records: seq<RunRecord>, item: Item, n: int)
    requires Tally(records).Ok?
    ensures CellFailures(Tally(records).value, item, n) == [] <==> CellHolds(records, item, n)
  {
    hide Tally, Cell, CellHolds, Repetitions, Fields, FieldFailures, CountAll, CountIf, Meets, OneEach, Range,
      Precondition, Artifacts, ProvenanceComplete, Success, HrrAgree, SingleServerHello, HrrPcap, Hybrid, Classical;
    var cell := Cell(records, item.key);
    TallyCell(records, item.key);
    CellHoldsInCell(records, item, n);
    if cell != [] {
      var c := CountAll(cell);
      CountersCount(cell);
      HelloCountersCount(cell);
      OneEachExact(cell, n);
      FieldFailuresNone(item.key, c.n, c);
      AllMeet(cell, item.expected);
      CountIfAll(cell, Precondition);
      CountIfAll(cell, Artifacts);
      CountIfAll(cell, ProvenanceComplete);
      CountIfAll(cell, Success);
      CountIfAll(cell, HrrAgree);
      CountIfAll(cell, SingleServerHello);
      CountIfAll(cell, HrrPcap);
      CountIfAll(cell, Hybrid);
      CountIfAll(cell, Classical);
    }
  }

  lemma {:induction false} FieldFailuresExact(key: Key, n: nat, fields: seq<(string, nat)>, f: Failure)
    ensures f in FieldFailures(key, n, fields) <==>
              exists i :: 0 <= i < |fields| && fields[i].1 != n && f == FieldShort(key, fields[i].0, fields[i].1, n)
  {
    if fields != [] {
      var front, last := fields[..|fields| - 1], fields[|fields| - 1];
      FieldFailuresExact(key, n, front, f);
      assert forall i :: 0 <= i < |front| ==> front[i] == fields[i];
      assert fields[|front|] == last;
    }
  }

  /** Each failure of a cell says which number is wrong: what was counted, and out of how many records. */
  lemma FailuresExact(table: Table, item: Item, n: int, f: Failure)
    ensures f in CellFailures(table, item, n) <==>
              if item.key !in table then f == NoRecords(item.key)
              else
                var c, key, want := table[item.key], item.key, item.expected;
                var final := if want.finalGroup == "X25519MLKEM768" then c.hybrid else c.classical;
                || (f == WrongRepetitions(key, c.repetitions, c.n) && (c.n != n || c.repetitions != Range(n)))
                || (f == FieldShort(key, "precondition", c.precondition, c.n) && c.precondition != c.n)
                || (f == FieldShort(key, "artifacts", c.artifacts, c.n) && c.artifacts != c.n)
                || (f == FieldShort(key, "provenance", c.provenance, c.n) && c.provenance != c.n)
                || (f == FieldShort(key, "success", c.success, c.n) && c.success != c.n)
                || (f == FieldShort(key, "hrr agree", c.hrrAgree, c.n) && c.hrrAgree != c.n)
                || (f == FieldShort(key, "single server_hello", c.singleServerHello, c.n) && c.singleServerHello != c.n)
                || (f == WrongHrr(key, c.hrrPcap, c.n, want.hrr) && c.hrrPcap != if want.hrr then c.n else 0)
                || (f == WrongFinal(key, want.finalGroup, final, c.n) && final != c.n)
  {
    hide FieldFailures, Range;
    if item.key in table {
      var c := table[item.key];
      FieldFailuresExact(item.key, c.n, Fields(c), f);
      FieldsSay(item.key, c, f);
    }
  }

  lemma FieldsSay(key: Key, c: Counts, f: Failure)
    ensures (exists i :: && 0 <= i < 6 && Fields(c)[i].1 != c.n
                         && f == FieldShort(key, Fields(c)[i].0, Fields(c)[i].1, c.n))
            <==>
              || (f == FieldShort(key, "precondition", c.precondition, c.n) && c.precondition != c.n)
              || (f == FieldShort(key, "artifacts", c.artifacts, c.n) && c.artifacts != c.n)
              || (f == FieldShort(key, "provenance", c.provenance, c.n) && c.provenance != c.n)
              || (f == FieldShort(key, "success", c.success, c.n) && c.success != c.n)
              || (f == FieldShort(key, "hrr agree", c.hrrAgree, c.n) && c.hrrAgree != c.n)
              || (f == FieldShort(key, "single server_hello", c.singleServerHello, c.n) && c.singleServerHello != c.n)
  {
    var fields := Fields(c);
    assert fields[0] == ("precondition", c.precondition) && fields[1] == ("artifacts", c.artifacts);
    assert fields[2] == ("provenance", c.provenance) && fields[3] == ("success", c.success);
    assert fields[4] == ("hrr agree", c.hrrAgree) && fields[5] == ("single server_hello", c.singleServerHello);
  }

  function Reproduced(records: seq<RunRecord>, n: int, expected: seq<Item>): Result<bool> {
    var table :- Tally(records);
    Ok(AllFailures(table, n, expected) == [])
  }

  /** The verdict over the counters is the pointwise statement: every expected cell has exactly one record for each
      repetition, and each of those records meets every expectation.  For `n < 1` no cell can hold. */
  lemma {:induction false} VerdictExact(records: seq<RunRecord>, n: int, expected: seq<Item>)
    requires Tally(records).Ok?
    ensures Reproduced(records, n, expected) == Ok(true) <==>
              forall i :: 0 <= i < |expected| ==> CellHolds(records, expected[i], n)
    ensures n < 1 ==> (Reproduced(records, n, expected) == Ok(true) <==> expected == [])
  {
    hide Tally, CellFailures, CellHolds;
    if expected != [] {
      var front, last := expected[..|expected| - 1], expected[|expected| - 1];
      VerdictExact(records, n, front);
      CellExact(records, last, n);
      NoCellBelowOne(records, last, n);
      assert forall i :: 0 <= i < |expected| ==> expected[i] == if i < |front| then front[i] else last;
    }
  }

  lemma NoCellBelowOne(records: seq<RunRecord>, item: Item, n: int)
    ensures n < 1 ==> !CellHolds(records, item, n)
  {
    if CellHolds(records, item, n) {
      var i :| 0 <= i < |records| && Belongs(records[i], item.key);
      assert 1 <= records[i].repetition <= n;
    }
  }
}

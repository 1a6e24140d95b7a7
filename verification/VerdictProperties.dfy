/** The verdict does not depend on the order of the records, and the matrix it is judged against. */
module VerdictProperties {
  import opened Bytes
  import opened Verdict

  // ---- order of the records

  lemma BumpCommutes(c: Counts, a: RunRecord, b: RunRecord)
    ensures Bump(Bump(c, a), b) == Bump(Bump(c, b), a)
  {
    hide Precondition, Success, HrrPcap, Hybrid, Classical, Artifacts, ProvenanceComplete, HrrAgree,
         SingleServerHello, One;
    assert c.repetitions + {a.repetition} + {b.repetition} == c.repetitions + {b.repetition} + {a.repetition};
  }

  lemma AddCommutes(t: Table, k: Key, a: RunRecord, l: Key, b: RunRecord)
    ensures Add(Add(t, k, a), l, b) == Add(Add(t, l, b), k, a)
  {
    hide Bump;
    BumpCommutes(if k in t then t[k] else ZERO, a, b);
  }

  lemma StepCommutes(t: Result<Table>, a: RunRecord, b: RunRecord)
    ensures Step(Step(t, a), b) == Step(Step(t, b), a)
  {
    hide Add;
    if t.Ok? && Relevant(a) && Relevant(b) && KeyOf(a).Ok? && KeyOf(b).Ok? {
      AddCommutes(t.value, KeyOf(a).value, a, KeyOf(b).value, b);
    }
  }

  function Dropped(records: seq<RunRecord>, i: nat): seq<RunRecord>
    requires i < |records|
  {
    records[..i] + records[i + 1..]
  }

  lemma TallySnoc(records: seq<RunRecord>, r: RunRecord)
    ensures Tally(records + [r]) == Step(Tally(records), r)
  {
    assert (records + [r])[..|records|] == records;
  }

  /** Counting a record last instead of where it stands changes nothing. */
  lemma {:induction false} TallyMove(records: seq<RunRecord>, i: nat)
    requires i < |records|
    ensures Tally(records) == Step(Tally(Dropped(records, i)), records[i])
  {
    hide Tally, Step;
    var front, r := records[..|records| - 1], records[|records| - 1];
    assert records == front + [r];
    TallySnoc(front, r);
    if i == |front| {
      assert Dropped(records, i) == front;
    } else {
      TallyMove(front, i);
      assert Dropped(records, i) == Dropped(front, i) + [r];
      TallySnoc(Dropped(front, i), r);
      StepCommutes(Tally(Dropped(front, i)), records[i], r);
    }
  }

  lemma TakeOut<T>(front: seq<T>, x: T, s: seq<T>) returns (i: nat)
    requires multiset(front + [x]) == multiset(s)
    ensures i < |s| && s[i] == x && multiset(s[..i] + s[i + 1..]) == multiset(front)
  {
    assert x in multiset(front + [x]);
    assert x in s;
    i :| i < |s| && s[i] == x;
    assert s == s[..i] + [x] + s[i + 1..];
    var rest := multiset(s[..i] + s[i + 1..]);
    assert rest == rest + multiset{x} - multiset{x} == multiset(s) - multiset{x};
    assert multiset(front) == multiset(front + [x]) - multiset{x};
  }

  lemma {:induction false} TallyPermuted(a: seq<RunRecord>, b: seq<RunRecord>)
    requires multiset(a) == multiset(b)
    ensures Tally(a) == Tally(b)
  {
    hide Tally, Step;
    if a == [] {
      assert |b| == |multiset(b)| == |multiset(a)|;
      assert b == [];
    } else {
      var front, r := a[..|a| - 1], a[|a| - 1];
      assert a == front + [r];
      var i := TakeOut(front, r, b);
      TallyPermuted(front, Dropped(b, i));
      TallySnoc(front, r);
      TallyMove(b, i);
    }
  }

  /** Reading the records in another order gives the same verdict. */
  lemma VerdictIgnoresOrder(a: seq<RunRecord>, b: seq<RunRecord>, n: int, expected: seq<Item>)
    requires multiset(a) == multiset(b)
    ensures Reproduced(a, n, expected) == Reproduced(b, n, expected)
  {
    TallyPermuted(a, b);
  }

  /** Counting raises `KeyError`, and does so exactly when a server-setting record has no version or no setting at all.
      One that is stored as null does not raise. */
  lemma {:induction false} TallyRaises(records: seq<RunRecord>)
    ensures Tally(records).Err? <==>
              exists i :: 0 <= i < |records| && Relevant(records[i]) && Unplaced(records[i])
    ensures Tally(records).Err? ==> Tally(records) == Err(KeyError)
  {
    if records != [] {
      var front, r := records[..|records| - 1], records[|records| - 1];
      TallyRaises(front);
      assert forall i :: 0 <= i < |records| ==> records[i] == if i < |front| then front[i] else r;
      if Tally(front).Err? {
        var i :| 0 <= i < |front| && Relevant(front[i]) && Unplaced(front[i]);
        assert records[i] == front[i];
      }
    }
  }

  predicate Unplaced(r: RunRecord) {
    r.provenance.serverVersion.Missing? || r.provenance.serverSetting.Missing?
  }

  // ---- the expected matrix

  predicate IsSetting(setting: Option<string>) {
    setting == Some("S1") || setting == Some("S2") || setting == Some("S3")
  }

  predicate Listed(version: Option<string>, servers: seq<string>) {
    version.Some? && version.value in servers
  }

  const NO_RETRY := Expectation(false, CLASSICAL)
  const RETRY := Expectation(true, HYBRID)

  /** What a server is expected to do: a retry to the hybrid group at the tuple boundary, and on a server that is not
      vulnerable also in the default setting; the classical group without a retry otherwise. */
  function Expect(vulnerable: seq<string>, key: Key): Expectation {
    if key.setting == Some("S2") || (key.setting == Some("S3") && !Listed(key.version, vulnerable))
    then Expectation(true, "X25519MLKEM768")
    else Expectation(false, "X25519")
  }

  /** Assignment under a key of a dictionary that keeps insertion order. */
  function SetItem(items: seq<Item>, key: Key, value: Expectation): seq<Item> {
    if items == [] then [Item(key, value)]
    else if items[0].key == key then [Item(key, value)] + items[1..]
    else [items[0]] + SetItem(items[1..], key, value)
  }

  predicate HasKey(items: seq<Item>, key: Key) {
    exists i :: 0 <= i < |items| && items[i].key == key
  }

  predicate Unique(items: seq<Item>) {
    forall i, j :: 0 <= i < j < |items| ==> items[i].key != items[j].key
  }

  lemma {:induction false} SetItemKeys(items: seq<Item>, key: Key, value: Expectation, other: Key)
    ensures HasKey(SetItem(items, key, value), other) <==> other == key || HasKey(items, other)
  {
    var out := SetItem(items, key, value);
    if items == [] {
      assert out[0].key == key;
    } else {
      var rest := out[1..];
      assert out == [out[0]] + rest && items == [items[0]] + items[1..];
      HasKeyCons(out[0], rest, other);
      HasKeyCons(items[0], items[1..], other);
      if items[0].key == key {
        assert rest == items[1..];
      } else {
        assert rest == SetItem(items[1..], key, value);
        SetItemKeys(items[1..], key, value, other);
      }
    }
  }

  lemma HasKeyCons(first: Item, rest: seq<Item>, key: Key)
    ensures HasKey([first] + rest, key) <==> first.key == key || HasKey(rest, key)
  {
    var items := [first] + rest;
    assert items[0] == first;
    if HasKey(rest, key) {
      var i :| 0 <= i < |rest| && rest[i].key == key;
      assert items[i + 1].key == key;
    }
    if HasKey(items, key) {
      var i :| 0 <= i < |items| && items[i].key == key;
      assert i == 0 || rest[i - 1].key == key;
    }
  }

  lemma {:induction false} SetItemUnique(items: seq<Item>, key: Key, value: Expectation)
    requires Unique(items)
    ensures Unique(SetItem(items, key, value))
  {
    if items != [] && items[0].key != key {
      var rest := SetItem(items[1..], key, value);
      SetItemUnique(items[1..], key, value);
      SetItemKeys(items[1..], key, value, items[0].key);
      forall j | 0 <= j < |rest|
        ensures rest[j].key != items[0].key
      {
        assert HasKey(rest, rest[j].key);
      }
    }
  }

  /** Every item carries what is expected of its key. */
  predicate Faithful(items: seq<Item>, vulnerable: seq<string>) {
    forall i :: 0 <= i < |items| ==> items[i].expected == Expect(vulnerable, items[i].key)
  }

  lemma {:induction false} SetItemFaithful(items: seq<Item>, key: Key, value: Expectation, vulnerable: seq<string>)
    requires Faithful(items, vulnerable) && value == Expect(vulnerable, key)
    ensures Faithful(SetItem(items, key, value), vulnerable)
  {
    hide Expect;
    if items != [] {
      SetItemFaithful(items[1..], key, value, vulnerable);
    }
  }

  /** The items are exactly the cells of these servers in the three settings. */
  ghost predicate Covers(items: seq<Item>, servers: seq<string>) {
    forall key :: HasKey(items, key) <==> Listed(key.version, servers) && IsSetting(key.setting)
  }

  /** The three assignments of one pass of the loop. */
  function SetServer(items: seq<Item>, server: string, vulnerable: seq<string>): seq<Item> {
    var version := Some(server);
    SetItem(
      SetItem(
        SetItem(items, Key(version, Some("S1")), NO_RETRY),
        Key(version, Some("S2")), RETRY),
      Key(version, Some("S3")), if server in vulnerable then NO_RETRY else RETRY)
  }

  /** The dictionary after the loop has passed these servers. */
  function MatrixOf(servers: seq<string>, vulnerable: seq<string>): seq<Item> {
    if servers == [] then []
    else SetServer(MatrixOf(servers[..|servers| - 1], vulnerable), servers[|servers| - 1], vulnerable)
  }

  lemma SetServerFacts(items: seq<Item>, server: string, vulnerable: seq<string>, servers: seq<string>)
    requires Unique(items) && Faithful(items, vulnerable) && Covers(items, servers)
    ensures var out := SetServer(items, server, vulnerable);
            Unique(out) && Faithful(out, vulnerable) && Covers(out, servers + [server])
  {
    hide SetItem, HasKey, Unique, Faithful;
    var version := Some(server);
    var a, b, c := Key(version, Some("S1")), Key(version, Some("S2")), Key(version, Some("S3"));
    var split := if server in vulnerable then NO_RETRY else RETRY;
    var first := SetItem(items, a, NO_RETRY);
    var second := SetItem(first, b, RETRY);
    var out := SetItem(second, c, split);
    SetItemUnique(items, a, NO_RETRY);
    SetItemUnique(first, b, RETRY);
    SetItemUnique(second, c, split);
    SetItemFaithful(items, a, NO_RETRY, vulnerable);
    SetItemFaithful(first, b, RETRY, vulnerable);
    SetItemFaithful(second, c, split, vulnerable);
    forall key
      ensures HasKey(out, key) <==> Listed(key.version, servers + [server]) && IsSetting(key.setting)
    {
      SetItemKeys(items, a, NO_RETRY, key);
      SetItemKeys(first, b, RETRY, key);
      SetItemKeys(second, c, split, key);
    }
  }

  lemma {:induction false} MatrixFacts(servers: seq<string>, vulnerable: seq<string>)
    ensures var items := MatrixOf(servers, vulnerable);
            Unique(items) && Faithful(items, vulnerable) && Covers(items, servers)
  {
    hide SetServer, Unique, Faithful, Covers;
    if servers == [] {
      EmptyMatrix(vulnerable);
    } else {
      var front := servers[..|servers| - 1];
      MatrixFacts(front, vulnerable);
      assert front + [servers[|front|]] == servers;
      SetServerFacts(MatrixOf(front, vulnerable), servers[|front|], vulnerable, front);
    }
  }

  lemma EmptyMatrix(vulnerable: seq<string>)
    ensures Unique([]) && Faithful([], vulnerable) && Covers([], [])
  {
  }

  /** `expected_matrix`: one item for each server and setting, also if a server is listed twice. */
  method ExpectedMatrix(vulnerable: seq<string>, fixed: seq<string>) returns (items: seq<Item>)
    ensures items == MatrixOf(vulnerable + fixed, vulnerable)
    ensures Unique(items) && Covers(items, vulnerable + fixed)
    ensures forall i :: 0 <= i < |items| ==>
              var key := items[i].key;
              items[i].expected
              == if key.setting == Some("S2") || (key.setting == Some("S3") && !Listed(key.version, vulnerable))
                 then Expectation(true, "X25519MLKEM768")
                 else Expectation(false, "X25519")
  {
    hide SetItem, Unique, Covers, IsSetting;
    items := [];
    var servers := vulnerable + fixed;
    var i := 0;
    while i < |servers|
      invariant 0 <= i <= |servers|
      invariant items == MatrixOf(servers[..i], vulnerable)
    {
      var server := servers[i];
      assert servers[..i + 1][..i] == servers[..i];
      items := SetItem(items, Key(Some(server), Some("S1")), NO_RETRY);
      items := SetItem(items, Key(Some(server), Some("S2")), RETRY);
      items := SetItem(items, Key(Some(server), Some("S3")), if server in vulnerable then NO_RETRY else RETRY);
      i := i + 1;
    }
    assert servers[..|servers|] == servers;
    MatrixFacts(servers, vulnerable);
  }

  lemma {:induction false} SetItemNew(items: seq<Item>, key: Key, value: Expectation)
    requires !HasKey(items, key)
    ensures SetItem(items, key, value) == items + [Item(key, value)]
  {
    if items != [] {
      HasKeyCons(items[0], items[1..], key);
      assert items == [items[0]] + items[1..];
      SetItemNew(items[1..], key, value);
    }
  }

  /** Servers that are listed once contribute their three settings in order, one server after the other. */
  lemma {:induction false} MatrixInOrder(servers: seq<string>, vulnerable: seq<string>)
    requires forall i, j :: 0 <= i < j < |servers| ==> servers[i] != servers[j]
    ensures var items := MatrixOf(servers, vulnerable);
            && |items| == 3 * |servers|
            && forall i :: 0 <= i < |servers| ==>
                 && items[3 * i].key == Key(Some(servers[i]), Some("S1"))
                 && items[3 * i + 1].key == Key(Some(servers[i]), Some("S2"))
                 && items[3 * i + 2].key == Key(Some(servers[i]), Some("S3"))
  {
    hide SetItem, HasKey, Unique, Faithful;
    if servers != [] {
      var front, server := servers[..|servers| - 1], servers[|servers| - 1];
      MatrixInOrder(front, vulnerable);
      MatrixFacts(front, vulnerable);
      NewServer(MatrixOf(front, vulnerable), server, vulnerable, front);
      assert forall i :: 0 <= i < |front| ==> front[i] == servers[i];
    }
  }

  lemma NewServer(items: seq<Item>, server: string, vulnerable: seq<string>, servers: seq<string>)
    requires Covers(items, servers) && server !in servers
    ensures var split := if server in vulnerable then NO_RETRY else RETRY;
            SetServer(items, server, vulnerable)
            == items + [Item(Key(Some(server), Some("S1")), NO_RETRY), Item(Key(Some(server), Some("S2")), RETRY),
                        Item(Key(Some(server), Some("S3")), split)]
  {
    hide SetItem, HasKey;
    var version := Some(server);
    var a, b, c := Key(version, Some("S1")), Key(version, Some("S2")), Key(version, Some("S3"));
    SetItemNew(items, a, NO_RETRY);
    var first := SetItem(items, a, NO_RETRY);
    SetItemKeys(items, a, NO_RETRY, b);
    SetItemKeys(items, a, NO_RETRY, c);
    SetItemNew(first, b, RETRY);
    SetItemKeys(first, b, RETRY, c);
    SetItemNew(SetItem(first, b, RETRY), c, if server in vulnerable then NO_RETRY else RETRY);
  }

  /** Judged against the matrix, the verdict says: on every server, the `n` runs ended with the classical group and no
      retry in the first setting and with the hybrid group after a retry in the second; in the third they did as in the
      first on a vulnerable server and as in the second on any other. */
  lemma MatrixVerdict(records: seq<RunRecord>, n: int, vulnerable: seq<string>, fixed: seq<string>)
    requires Tally(records).Ok?
    ensures Reproduced(records, n, MatrixOf(vulnerable + fixed, vulnerable)) == Ok(true) <==>
              forall server :: server in vulnerable + fixed ==>
                && CellHolds(records, Item(Key(Some(server), Some("S1")), Expectation(false, "X25519")), n)
                && CellHolds(records, Item(Key(Some(server), Some("S2")), Expectation(true, "X25519MLKEM768")), n)
                && CellHolds(records, Item(Key(Some(server), Some("S3")),
                                           if server in vulnerable then Expectation(false, "X25519")
                                           else Expectation(true, "X25519MLKEM768")), n)
  {
    hide CellHolds, Reproduced, Tally, MatrixOf;
    var items := MatrixOf(vulnerable + fixed, vulnerable);
    MatrixFacts(vulnerable + fixed, vulnerable);
    VerdictExact(records, n, items);
    if forall i :: 0 <= i < |items| ==> CellHolds(records, items[i], n) {
      forall key: Key | Listed(key.version, vulnerable + fixed) && IsSetting(key.setting)
        ensures CellHolds(records, Item(key, Expect(vulnerable, key)), n)
      {
        assert HasKey(items, key);
        var i :| 0 <= i < |items| && items[i].key == key;
        assert items[i] == Item(key, Expect(vulnerable, key));
      }
      forall server | server in vulnerable + fixed
        ensures CellHolds(records, Item(Key(Some(server), Some("S1")), Expectation(false, "X25519")), n)
        ensures CellHolds(records, Item(Key(Some(server), Some("S2")), Expectation(true, "X25519MLKEM768")), n)
        ensures CellHolds(records, Item(Key(Some(server), Some("S3")),
                                        if server in vulnerable then Expectation(false, "X25519")
                                        else Expectation(true, "X25519MLKEM768")), n)
      {
        ThreeSettings(server, vulnerable);
      }
    } else {
      var i :| 0 <= i < |items| && !CellHolds(records, items[i], n);
      assert HasKey(items, items[i].key);
      var server := items[i].key.version.value;
      ThreeSettings(server, vulnerable);
      assert items[i] == Item(items[i].key, Expect(vulnerable, items[i].key));
    }
  }

  lemma ThreeSettings(server: string, vulnerable: seq<string>)
    ensures Expect(vulnerable, Key(Some(server), Some("S1"))) == Expectation(false, "X25519")
    ensures Expect(vulnerable, Key(Some(server), Some("S2"))) == Expectation(true, "X25519MLKEM768")
    ensures Expect(vulnerable, Key(Some(server), Some("S3")))
            == if server in vulnerable then Expectation(false, "X25519") else Expectation(true, "X25519MLKEM768")
  {
  }

  /** A true verdict, read off one record of an expected cell. */
  lemma ReproducedRun(records: seq<RunRecord>, n: int, expected: seq<Item>, i: nat, r: RunRecord)
    requires Reproduced(records, n, expected) == Ok(true)
    requires i < |expected| && r in records && r.faultType == "server-setting"
    requires r.provenance.serverVersion == Stored(expected[i].key.version)
    requires r.provenance.serverSetting == Stored(expected[i].key.setting)
    ensures 1 <= r.repetition <= n
    ensures r.metrics.handshakeResult == "success" && r.artifactsComplete
    ensures r.metrics.precondition == Some(true) && r.metrics.serverHelloCount == Some(1)
    ensures r.metrics.hrrLog == r.metrics.hrrPcap && (r.metrics.hrrPcap == Some(true) <==> expected[i].expected.hrr)
    ensures r.metrics.finalGroup
            == Some(if expected[i].expected.finalGroup == "X25519MLKEM768" then "X25519MLKEM768" else "X25519")
    ensures r.provenance.serverBin !in {Missing, Null, Text("")} && r.provenance.clientBin !in {Missing, Null, Text("")}
  {
    hide Tally, AllFailures;
    VerdictExact(records, n, expected);
    assert CellHolds(records, expected[i], n);
    var j :| 0 <= j < |records| && records[j] == r;
  }

  // ---- final groups other than the two known ones

  /** A cell judged by the final group its expectation names. */
  predicate CellHoldsAsStated(records: seq<RunRecord>, item: Item, n: int) {
    && Filled(records, item.key, n)
    && forall i :: 0 <= i < |records| && Belongs(records[i], item.key) ==>
         && Complete(records[i], item.expected)
         && records[i].metrics.finalGroup == Some(item.expected.finalGroup)
  }

  predicate Known(group: string) {
    group == HYBRID || group == CLASSICAL
  }

  /** A complete first run of a cell that ended with the classical group. */
  function ClassicalRun(item: Item): RunRecord {
    var hrr := Some(item.expected.hrr);
    RunRecord(
      "server-setting", 1, Metrics("success", hrr, hrr, Some(1), Some(CLASSICAL), Some(true), None), true, true,
      Provenance(Stored(item.key.version), Stored(item.key.setting), Text("s"), Text("c")), false, false)
  }

  lemma ClassicalRunMeets(item: Item)
    ensures var r := ClassicalRun(item);
            && Belongs(r, item.key) && r.repetition == 1
            && r.metrics.finalGroup == Some(CLASSICAL)
            && (item.expected.finalGroup != HYBRID ==> Meets(r, item.expected))
  {
  }

  lemma OneRecordFills(r: RunRecord, key: Key)
    requires Belongs(r, key) && r.repetition == 1
    ensures Tally([r]).Ok? && Filled([r], key, 1)
  {
    hide Belongs, Add;
    BelongsExact(r, key);
    assert [r][..0] == [] && Tally([]) == Ok(map[]);
    assert [r][0] == r;
    assert HasRepetition([r], key, 1);
  }

  /** A matrix of one cell that expects some other group is reproduced by a run that ended classical. */
  lemma OtherGroupAccepted(item: Item)
    requires !Known(item.expected.finalGroup)
    ensures Tally([ClassicalRun(item)]).Ok?
    ensures Reproduced([ClassicalRun(item)], 1, [item]) == Ok(true)
    ensures !CellHoldsAsStated([ClassicalRun(item)], item, 1)
  {
    hide ClassicalRun, Belongs, Tally, Filled, Meets, Reproduced;
    var r := ClassicalRun(item);
    ClassicalRunMeets(item);
    OneRecordFills(r, item.key);
    assert [r][0] == r && [item][0] == item;
    assert CellHolds([r], item, 1);
    VerdictExact([r], 1, [item]);
  }

  lemma {:induction false} KnownGroupJudged(records: seq<RunRecord>, item: Item, n: int)
    requires Known(item.expected.finalGroup)
    ensures CellHolds(records, item, n) <==> CellHoldsAsStated(records, item, n)
  {
  }

  /** The verdict judges a cell by the final group its expectation names, whatever the records, if and only if that
      is one of the two known names. */
  lemma FinalGroupJudged(item: Item)
    ensures (forall records: seq<RunRecord>, n: int :: Tally(records).Ok? ==>
               (Reproduced(records, n, [item]) == Ok(true) <==> CellHoldsAsStated(records, item, n)))
            <==> Known(item.expected.finalGroup)
  {
    hide Tally, Reproduced, CellHolds, CellHoldsAsStated;
    if Known(item.expected.finalGroup) {
      forall records: seq<RunRecord>, n: int | Tally(records).Ok?
        ensures Reproduced(records, n, [item]) == Ok(true) <==> CellHoldsAsStated(records, item, n)
      {
        VerdictExact(records, n, [item]);
        assert [item][0] == item;
        KnownGroupJudged(records, item, n);
      }
    } else {
      OtherGroupAccepted(item);
    }
  }
}

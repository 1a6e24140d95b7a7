/** From capture bytes to the verdict: how a capture becomes metrics, and what a true verdict says about captures. */
module Evidence {
  import opened Bytes
  import opened CaptureReader
  import opened CaptureContents
  import opened Verdict
  import opened VerdictProperties

  const X25519: u16 := 0x001D
  const X25519_MLKEM768: u16 := 0x11EC

  function HexDigit(d: nat): char
    requires d < 16
  {
    "0123456789abcdef"[d]
  }

  /** `group_name`. */
  function GroupName(code: Option<u16>): Option<string> {
    match code
    case None => None
    case Some(c) =>
      if c == X25519 then Some("X25519")
      else if c == X25519_MLKEM768 then Some("X25519MLKEM768")
      else if c == 0x6399 then Some("X25519Kyber768Draft00")
      else Some("0x" + Hex4(c))
  }

  /** A two-byte code as four hexadecimal digits. */
  function Hex4(c: u16): string {
    [HexDigit(c / 0x1000), HexDigit(c / 0x100 % 16), HexDigit(c / 16 % 16), HexDigit(c % 16)]
  }

  /** The number that lower-case hexadecimal digits spell. */
  function HexValue(text: string): int {
    if text == "" then 0
    else
      var c := text[|text| - 1];
      16 * HexValue(text[..|text| - 1]) + if '0' <= c <= '9' then c as int - '0' as int else c as int - 'a' as int + 10
  }

  lemma GroupNameExact(code: Option<u16>)
    ensures GroupName(code) == None <==> code == None
    ensures GroupName(code) == Some("X25519") <==> code == Some(0x001D)
    ensures GroupName(code) == Some("X25519MLKEM768") <==> code == Some(0x11EC)
    ensures GroupName(code) == Some("X25519Kyber768Draft00") <==> code == Some(0x6399)
  {
    hide HexDigit;
    if code.Some? {
      var name := GroupName(code).value;
      assert "X25519"[0] == 'X' && "X25519MLKEM768"[0] == 'X';
      assert |"X25519"| == 6 && |"X25519MLKEM768"| == 14 && |"X25519Kyber768Draft00"| == 21;
      assert code.value !in {X25519, X25519_MLKEM768, 0x6399} ==> name[0] == '0';
    }
  }

  predicate IsHexDigit(c: char) {
    '0' <= c <= '9' || 'a' <= c <= 'f'
  }

  /** Any other group is named by its code: `0x` and the four lower-case digits that spell it. */
  lemma OtherGroupName(c: u16)
    requires c != 0x001D && c != 0x11EC && c != 0x6399
    ensures GroupName(Some(c)).Some?
    ensures var name := GroupName(Some(c)).value;
            && |name| == 6 && name[..2] == "0x" && (forall i :: 2 <= i < 6 ==> IsHexDigit(name[i]))
            && HexValue(name[2..]) == c
  {
    hide HexDigit;
    var name, hex := GroupName(Some(c)).value, Hex4(c);
    assert name == "0x" + hex && name[..2] == "0x" && name[2..] == hex;
    HexDigitValue(c / 0x1000);
    HexDigitValue(c / 0x100 % 16);
    HexDigitValue(c / 16 % 16);
    HexDigitValue(c % 16);
    assert hex[..3][..2] == hex[..2] && hex[..2][..1] == hex[..1] && hex[..1][..0] == "";
    assert HexValue("") == 0;
    assert HexValue(hex[..1]) == c / 0x1000;
    assert HexValue(hex[..2]) == 16 * HexValue(hex[..1]) + c / 0x100 % 16;
    assert HexValue(hex[..3]) == 16 * HexValue(hex[..2]) + c / 16 % 16;
    Digits(c);
  }

  lemma HexDigitValue(d: nat)
    requires d < 16
    ensures var c := HexDigit(d);
            && IsHexDigit(c)
            && d == if '0' <= c <= '9' then c as int - '0' as int else c as int - 'a' as int + 10
  {
  }

  lemma Digits(c: u16)
    ensures c == c / 0x1000 * 0x1000 + c / 0x100 % 16 * 0x100 + c / 16 % 16 * 16 + c % 16
  {
    assert c / 16 / 16 == c / 0x100 && c / 0x100 / 16 == c / 0x1000;
  }

  lemma Hex4Injective(c: u16, d: u16)
    requires Hex4(c) == Hex4(d)
    ensures c == d
  {
    hide HexDigit;
    var s, t := Hex4(c), Hex4(d);
    assert s[0] == t[0] && s[1] == t[1] && s[2] == t[2] && s[3] == t[3];
    HexDigitInjective(c / 0x1000, d / 0x1000);
    HexDigitInjective(c / 0x100 % 16, d / 0x100 % 16);
    HexDigitInjective(c / 16 % 16, d / 16 % 16);
    HexDigitInjective(c % 16, d % 16);
    Digits(c);
    Digits(d);
  }

  lemma HexDigitInjective(a: nat, b: nat)
    requires a < 16 && b < 16
    ensures HexDigit(a) == HexDigit(b) ==> a == b
  {
  }

  /** No two groups share a name. */
  lemma GroupNameInjective(a: Option<u16>, b: Option<u16>)
    ensures GroupName(a) == GroupName(b) ==> a == b
  {
    hide Hex4;
    GroupNameExact(a);
    GroupNameExact(b);
    if a.Some? && b.Some? && GroupName(a) == GroupName(b) {
      var named := {X25519, X25519_MLKEM768, 0x6399};
      assert "X25519Kyber768Draft00"[0] == 'X';
      assert a.value !in named ==> GroupName(a).value[0] == '0';
      assert b.value !in named ==> GroupName(b).value[0] == '0';
      if a.value !in named && b.value !in named {
        assert ("0x" + Hex4(a.value))[2..] == Hex4(a.value) && ("0x" + Hex4(b.value))[2..] == Hex4(b.value);
        Hex4Injective(a.value, b.value);
      }
    }
  }

  /** `client_precondition`: the first ClientHello advertises both groups and offers one classical share. */
  predicate ClientPrecondition(summary: HelloSummary) {
    && summary.clientHellos != []
    && X25519 in summary.clientHellos[0].groups && X25519_MLKEM768 in summary.clientHellos[0].groups
    && summary.clientHellos[0].shares == [X25519]
  }

  /** What the evaluation finds of the client log: the record names none, the file is gone, or whether it shows a
      retry. */
  datatype ClientLog = NoArtifact | NoFile | LogFile(showsRetry: bool)

  /** The log metric.  The record's artifact is looked up without a default, so a missing entry raises. */
  function RetryInLog(log: ClientLog): Result<Option<bool>> {
    match log
    case NoArtifact => Err(KeyError)
    case NoFile => Ok(None)
    case LogFile(showsRetry) => Ok(Some(showsRetry))
  }

  /** A run as the evaluation finds it: the stored record, the capture file if there is one, and the client log. */
  datatype RunFiles = RunFiles(
    record: RunRecord, capture: Option<bytes>, clientLog: ClientLog, provenance: Provenance, explicitWarning: bool,
    mismatchInSingleOutput: bool)
  {
    predicate Captured() {
      capture.Some? && capture.value != []
    }

    function Summary(): HelloSummary
      requires Captured()
    {
      Summarize(capture.value)
    }
  }

  /** The record the evaluation stores. */
  function Evaluated(e: RunFiles): Result<RunRecord> {
    var inLog :- RetryInLog(e.clientLog);
    var result := e.record.metrics.handshakeResult;
    var metrics :=
      if e.Captured() then
        var s := e.Summary();
        Metrics(result, Some(s.HrrCount() > 0), inLog, Some(s.ServerHelloCount()), GroupName(s.FinalGroup()),
                Some(ClientPrecondition(s)), None)
      else Metrics(result, None, inLog, None, None, Some(false), None);
    Ok(e.record.(metrics := metrics, manipulationVerified := metrics.precondition == Some(true),
                 provenance := e.provenance, explicitWarning := e.explicitWarning,
                 mismatchInSingleOutput := e.mismatchInSingleOutput))
  }

  /** `evaluate_v12`: a copy of the metrics, updated field by field. */
  method EvaluateV12(e: RunFiles) returns (r: Result<RunRecord>)
    ensures r == Evaluated(e)
  {
    var metrics := e.record.metrics;
    if e.capture.Some? && |e.capture.value| > 0 {
      var summary := SummarizeHellos(e.capture.value);
      metrics := metrics.(hrrPcap := Some(summary.HrrCount() > 0));
      metrics := metrics.(serverHelloCount := Some(summary.ServerHelloCount()));
      metrics := metrics.(finalGroup := GroupName(summary.FinalGroup()));
      metrics := metrics.(precondition := Some(ClientPrecondition(summary)));
    } else {
      metrics := metrics.(hrrPcap := None, serverHelloCount := None, finalGroup := None, precondition := Some(false));
    }
    var inLog :- RetryInLog(e.clientLog);
    metrics := metrics.(hrrLog := inLog);
    metrics := metrics.(downgradeFlagged := None);
    return Ok(e.record.(metrics := metrics, manipulationVerified := metrics.precondition == Some(true),
                        provenance := e.provenance, explicitWarning := e.explicitWarning,
                        mismatchInSingleOutput := e.mismatchInSingleOutput));
  }

  function Code(expected: Expectation): u16 {
    if expected.finalGroup == "X25519MLKEM768" then 0x11EC else 0x001D
  }

  /** All hellos but the one at `i` are retry requests. */
  predicate OthersRetry(views: seq<ServerView>, i: nat) {
    forall j :: 0 <= j < |views| && j != i ==> views[j].isHrr
  }

  /** Exactly one hello is not a retry request, and it carries this group. */
  predicate OneReal(views: seq<ServerView>, group: Option<u16>) {
    exists i :: 0 <= i < |views| && views[i] == ServerView(false, group) && OthersRetry(views, i)
  }

  predicate SomeRetry(views: seq<ServerView>) {
    exists i :: 0 <= i < |views| && views[i].isHrr
  }

  /** What the capture of a run has to show: a first ClientHello that advertises both groups and offers a classical
      share only, one ServerHello with the expected group, and retries exactly if expected. */
  predicate Shows(e: RunFiles, expected: Expectation) {
    && e.Captured()
    && var s := e.Summary();
    && s.clientHellos != []
    && 0x001D in s.clientHellos[0].groups && 0x11EC in s.clientHellos[0].groups && s.clientHellos[0].shares == [0x001D]
    && OneReal(s.serverHellos, Some(Code(expected)))
    && (SomeRetry(s.serverHellos) <==> expected.hrr)
  }

  lemma {:induction false} CountSnoc(views: seq<ServerView>, view: ServerView, isHrr: bool)
    ensures Count(views + [view], isHrr) == Count(views, isHrr) + if view.isHrr == isHrr then 1 else 0
  {
    if views == [] {
      assert views + [view] == [view];
    } else {
      assert (views + [view])[1..] == views[1..] + [view];
      CountSnoc(views[1..], view, isHrr);
    }
  }

  lemma {:induction false} CountZero(views: seq<ServerView>, isHrr: bool)
    ensures Count(views, isHrr) == 0 <==> forall j :: 0 <= j < |views| ==> views[j].isHrr != isHrr
  {
    if views != [] {
      CountZero(views[1..], isHrr);
      assert forall j :: 0 < j < |views| ==> views[j] == views[1..][j - 1];
    }
  }

  lemma OneRealLast(views: seq<ServerView>, group: Option<u16>)
    requires views != [] && !views[|views| - 1].isHrr
    ensures OneReal(views, group) <==>
              views[|views| - 1].group == group && forall j :: 0 <= j < |views| - 1 ==> views[j].isHrr
  {
    var n := |views| - 1;
    if OneReal(views, group) {
      var i :| 0 <= i < |views| && views[i] == ServerView(false, group) && OthersRetry(views, i);
      assert i == n;
    }
    if views[n].group == group && forall j :: 0 <= j < n ==> views[j].isHrr {
      assert views[n] == ServerView(false, group) && OthersRetry(views, n);
    }
  }

  lemma OneRealSkip(views: seq<ServerView>, view: ServerView, group: Option<u16>)
    requires view.isHrr
    ensures OneReal(views + [view], group) <==> OneReal(views, group)
  {
    var more := views + [view];
    assert forall j :: 0 <= j < |views| ==> more[j] == views[j];
    if OneReal(views, group) {
      var i :| 0 <= i < |views| && views[i] == ServerView(false, group) && OthersRetry(views, i);
      assert more[i] == ServerView(false, group) && OthersRetry(more, i);
    }
    if OneReal(more, group) {
      var i :| 0 <= i < |more| && more[i] == ServerView(false, group) && OthersRetry(more, i);
      assert views[i] == ServerView(false, group) && OthersRetry(views, i);
    }
  }

  /** The two properties the evaluation reads determine the one real ServerHello. */
  lemma {:induction false} CountsExact(views: seq<ServerView>, code: u16)
    ensures OneReal(views, Some(code)) <==> Count(views, false) == 1 && LastReal(views) == Some(code)
    ensures SomeRetry(views) <==> Count(views, true) > 0
  {
    hide Count, OneReal;
    CountZero(views, true);
    CountZero(views, false);
    if views == [] {
      NoViews(code);
    } else {
      var front, last := views[..|views| - 1], views[|views| - 1];
      assert views == front + [last];
      CountSnoc(front, last, false);
      CountZero(front, false);
      CountsExact(front, code);
      if last.isHrr {
        OneRealSkip(front, last, Some(code));
      } else {
        OneRealLast(views, Some(code));
        assert forall j :: 0 <= j < |front| ==> front[j] == views[j];
      }
    }
  }

  lemma NoViews(code: u16)
    ensures !OneReal([], Some(code)) && Count([], false) == 0
  {
  }

  /** The capture shows it, the client log says the same about retries, and the run is otherwise complete. */
  predicate Proven(e: RunFiles, expected: Expectation) {
    && Shows(e, expected) && e.clientLog == LogFile(expected.hrr)
    && e.record.metrics.handshakeResult == "success" && e.record.artifactsComplete
    && e.provenance.serverBin !in {Missing, Null, Text("")} && e.provenance.clientBin !in {Missing, Null, Text("")}
  }

  /** An evaluated run meets its expectations exactly when its capture is there and shows them, the client log says the
      same about retries, and the run is otherwise complete.  A missing or empty capture never meets any, and a
      record that names no client log is not evaluated at all. */
  lemma EvidenceExact(e: RunFiles, expected: Expectation)
    ensures Evaluated(e).Ok? && Meets(Evaluated(e).value, expected) <==> Proven(e, expected)
    ensures Evaluated(e).Err? <==> e.clientLog == NoArtifact
    ensures Evaluated(e).Err? ==> Evaluated(e) == Err(KeyError)
  {
    hide Summarize, GroupName, Count, LastReal, OneReal, SomeRetry;
    if e.Captured() {
      GroupNameExact(e.Summary().FinalGroup());
      CountsExact(e.Summary().serverHellos, Code(expected));
    }
  }

  function Which(views: seq<ServerView>, isHrr: bool): set<int> {
    set i | 0 <= i < |views| && views[i].isHrr == isHrr
  }

  lemma {:induction false} CountIsCardinality(views: seq<ServerView>, isHrr: bool)
    ensures Count(views, isHrr) == |Which(views, isHrr)|
  {
    hide Count, Which;
    if views == [] {
      CountZero(views, isHrr);
      WhichOfNone(isHrr);
    } else {
      var front, last := views[..|views| - 1], views[|views| - 1];
      assert views == front + [last];
      CountSnoc(front, last, isHrr);
      CountIsCardinality(front, isHrr);
      WhichSnoc(front, last, isHrr);
    }
  }

  lemma WhichOfNone(isHrr: bool)
    ensures Which([], isHrr) == {}
  {
  }

  lemma WhichSnoc(views: seq<ServerView>, view: ServerView, isHrr: bool)
    ensures |views| !in Which(views, isHrr)
    ensures Which(views + [view], isHrr) == Which(views, isHrr) + if view.isHrr == isHrr then {|views|} else {}
  {
    var more := views + [view];
    assert forall i :: 0 <= i < |views| ==> more[i] == views[i];
    assert more[|views|] == view;
  }

  lemma {:induction false} LastRealIsLast(views: seq<ServerView>, i: nat)
    requires i < |views| && !views[i].isHrr && forall j :: i < j < |views| ==> views[j].isHrr
    ensures LastReal(views) == views[i].group
  {
    var n := |views| - 1;
    if i < n {
      LastRealIsLast(views[..n], i);
    }
  }

  lemma {:induction false} NoneReal(views: seq<ServerView>)
    requires forall i :: 0 <= i < |views| ==> views[i].isHrr
    ensures LastReal(views) == None
  {
    if views != [] {
      NoneReal(views[..|views| - 1]);
    }
  }

  /** What the evaluation stores.  Without a capture, or with an empty one, nothing is said about its hellos and the
      precondition fails.  With one: whether a retry request is in it, how many other ServerHellos are, the name of
      the group of the last of these, and whether the first ClientHello advertises both groups with one share, the
      classical.  The rest is taken over from the run. */
  lemma EvaluatedExact(e: RunFiles)
    requires Evaluated(e).Ok?
    ensures var r := Evaluated(e).value;
            && r.faultType == e.record.faultType && r.repetition == e.record.repetition
            && r.artifactsComplete == e.record.artifactsComplete && r.provenance == e.provenance
            && r.explicitWarning == e.explicitWarning && r.mismatchInSingleOutput == e.mismatchInSingleOutput
            && r.metrics.handshakeResult == e.record.metrics.handshakeResult && r.metrics.downgradeFlagged == None
            && r.metrics.hrrLog == (if e.clientLog == NoFile then None else Some(e.clientLog == LogFile(true)))
            && (r.manipulationVerified <==> r.metrics.precondition == Some(true))
    ensures var m := Evaluated(e).value.metrics;
            e.capture.None? || e.capture == Some([]) ==>
              m.hrrPcap == None && m.serverHelloCount == None && m.finalGroup == None && m.precondition == Some(false)
    ensures var m := Evaluated(e).value.metrics;
            e.capture.Some? && e.capture != Some([]) ==>
              var clients, servers := Summarize(e.capture.value).clientHellos, Summarize(e.capture.value).serverHellos;
              && m.hrrPcap == Some(exists i :: 0 <= i < |servers| && servers[i].isHrr)
              && m.serverHelloCount == Some(|set i | 0 <= i < |servers| && !servers[i].isHrr|)
              && ((forall i :: 0 <= i < |servers| ==> servers[i].isHrr) ==> m.finalGroup == None)
              && (forall i :: && 0 <= i < |servers| && !servers[i].isHrr
                              && (forall j :: i < j < |servers| ==> servers[j].isHrr) ==>
                                m.finalGroup == GroupName(servers[i].group))
              && m.precondition
                 == Some(clients != [] && 0x001D in clients[0].groups && 0x11EC in clients[0].groups
                         && clients[0].shares == [0x001D])
  {
    hide Summarize, GroupName, Count, LastReal;
    NameOfNone();
    if e.Captured() {
      ViewsExact(e.Summary().serverHellos);
    }
  }

  lemma ViewsExact(servers: seq<ServerView>)
    ensures Count(servers, true) > 0 <==> exists i :: 0 <= i < |servers| && servers[i].isHrr
    ensures Count(servers, false) == |set i | 0 <= i < |servers| && !servers[i].isHrr|
    ensures (forall i :: 0 <= i < |servers| ==> servers[i].isHrr) ==> LastReal(servers) == None
    ensures forall i :: && 0 <= i < |servers| && !servers[i].isHrr
                        && (forall j :: i < j < |servers| ==> servers[j].isHrr) ==>
                          LastReal(servers) == servers[i].group
  {
    hide Count, LastReal;
    CountZero(servers, true);
    CountIsCardinality(servers, false);
    assert Which(servers, false) == set i | 0 <= i < |servers| && !servers[i].isHrr;
    if forall i :: 0 <= i < |servers| ==> servers[i].isHrr {
      NoneReal(servers);
    }
    forall i | 0 <= i < |servers| && !servers[i].isHrr && forall j :: i < j < |servers| ==> servers[j].isHrr
      ensures LastReal(servers) == servers[i].group
    {
      LastRealIsLast(servers, i);
    }
  }

  lemma NameOfNone()
    ensures GroupName(None) == None
  {
  }

  // ---- down to the bytes

  /** A ServerHello that is not a retry request parses at offset `k`. */
  predicate RealAt(capture: bytes, k: nat) {
    k < |capture| && HelloAt(capture, k).Server? && !HelloAt(capture, k).server.isHrr
  }

  /** At `k`, and nowhere else, the bytes are a ServerHello that is no retry request; it carries `code`. */
  ghost predicate OnlyRealHello(capture: bytes, k: nat, code: u16) {
    && k < |capture| && PrintsServerHello(capture[k..], ServerView(false, Some(code)))
    && forall l, group :: 0 <= l < |capture| && PrintsServerHello(capture[l..], ServerView(false, group)) ==> l == k
  }

  function RealFrom(capture: bytes, i: nat): nat
    requires i <= |capture|
  {
    Count(HellosFrom(capture, i).serverHellos, false)
  }

  lemma RealFromStep(capture: bytes, i: nat)
    requires i < |capture|
    ensures RealFrom(capture, i) == RealFrom(capture, i + 1) + if RealAt(capture, i) then 1 else 0
  {
    hide HelloAt;
    var here, rest := Servers(HelloAt(capture, i)), HellosFrom(capture, i + 1).serverHellos;
    if here == [] {
      assert here + rest == rest;
    } else {
      assert (here + rest)[1..] == rest;
    }
  }

  lemma {:induction false} RealFromShrinks(capture: bytes, i: nat, j: nat)
    requires i <= j <= |capture|
    ensures RealFrom(capture, j) <= RealFrom(capture, i)
    decreases j - i
  {
    hide RealFrom, RealAt;
    if i < j {
      RealFromShrinks(capture, i + 1, j);
      RealFromStep(capture, i);
    }
  }

  lemma TwoReal(capture: bytes, k: nat, l: nat)
    requires k < l && RealAt(capture, k) && RealAt(capture, l)
    ensures RealFrom(capture, 0) >= 2
  {
    hide RealFrom, HelloAt;
    RealFromStep(capture, l);
    RealFromShrinks(capture, k + 1, l);
    RealFromStep(capture, k);
    RealFromShrinks(capture, 0, k);
  }

  lemma {:induction false} SummarizedIsThere(capture: bytes, i: nat, view: ServerView)
    requires i <= |capture| && view in HellosFrom(capture, i).serverHellos
    ensures exists j: nat :: i <= j < |capture| && HelloAt(capture, j) == Server(view)
    decreases |capture| - i
  {
    hide HelloAt;
    if i < |capture| && HelloAt(capture, i) != Server(view) {
      SummarizedIsThere(capture, i + 1, view);
    }
  }

  /** At exactly one offset of such a capture the bytes are a ServerHello that is no retry request, and it carries the
      expected group. */
  lemma NegotiatedInBytes(e: RunFiles, expected: Expectation)
    requires Shows(e, expected)
    ensures exists k: nat :: OnlyRealHello(e.capture.value, k, Code(expected))
  {
    hide HelloAt, HellosFrom, Count, LastReal, PrintsServerHello;
    var capture, view := e.capture.value, ServerView(false, Some(Code(expected)));
    CountsExact(e.Summary().serverHellos, Code(expected));
    assert view in e.Summary().serverHellos;
    SummarizedIsThere(capture, 0, view);
    var k: nat :| 0 <= k < |capture| && HelloAt(capture, k) == Server(view);
    ServerHelloAtIsPrinted(capture, k, view);
    forall l, group | 0 <= l < |capture| && PrintsServerHello(capture[l..], ServerView(false, group))
      ensures l == k
    {
      ServerHelloAtIsPrinted(capture, l, ServerView(false, group));
      if l < k {
        TwoReal(capture, l, k);
      } else if k < l {
        TwoReal(capture, k, l);
      }
    }
    assert OnlyRealHello(capture, k, Code(expected));
  }

  // ---- the chain

  predicate AllEvaluated(runs: seq<RunFiles>) {
    forall i :: 0 <= i < |runs| ==> Evaluated(runs[i]).Ok?
  }

  /** The records of a campaign; the first run that cannot be evaluated ends it. */
  function EvaluateAll(runs: seq<RunFiles>): Result<seq<RunRecord>> {
    if AllEvaluated(runs) then Ok(seq(|runs|, i requires 0 <= i < |runs| => Evaluated(runs[i]).value))
    else Err(KeyError)
  }

  /** The verdict over a campaign. */
  function CampaignVerdict(runs: seq<RunFiles>, n: int, expected: seq<Item>): Result<bool> {
    var records :- EvaluateAll(runs);
    Reproduced(records, n, expected)
  }

  /** The run belongs to this cell. */
  predicate InCell(e: RunFiles, key: Key) {
    && e.record.faultType == "server-setting"
    && e.provenance.serverVersion == Stored(key.version) && e.provenance.serverSetting == Stored(key.setting)
  }

  lemma CellOfEvaluated(e: RunFiles, key: Key)
    requires Evaluated(e).Ok?
    ensures InCell(e, key) <==> Belongs(Evaluated(e).value, key)
    ensures Evaluated(e).value.repetition == e.record.repetition
  {
    hide Summarize;
  }

  predicate HasRun(runs: seq<RunFiles>, key: Key, k: int) {
    exists i :: 0 <= i < |runs| && InCell(runs[i], key) && runs[i].record.repetition == k
  }

  /** The cell has a run, it has one for each repetition `1 .. n` and no other, and each is proven. */
  predicate CellProven(runs: seq<RunFiles>, item: Item, n: int) {
    && (exists i :: 0 <= i < |runs| && InCell(runs[i], item.key))
    && (forall k :: 1 <= k <= n ==> HasRun(runs, item.key, k))
    && (forall i, j :: 0 <= i < j < |runs| && InCell(runs[i], item.key) && InCell(runs[j], item.key) ==>
          runs[i].record.repetition != runs[j].record.repetition)
    && (forall i :: 0 <= i < |runs| && InCell(runs[i], item.key) ==>
          1 <= runs[i].record.repetition <= n && Proven(runs[i], item.expected))
  }

  lemma CellProvenExact(runs: seq<RunFiles>, item: Item, n: int)
    requires EvaluateAll(runs).Ok?
    ensures CellHolds(EvaluateAll(runs).value, item, n) <==> CellProven(runs, item, n)
  {
    hide Evaluated, Proven, Meets, Belongs, InCell;
    var records := EvaluateAll(runs).value;
    forall i | 0 <= i < |runs|
      ensures InCell(runs[i], item.key) <==> Belongs(records[i], item.key)
      ensures records[i].repetition == runs[i].record.repetition
      ensures Meets(records[i], item.expected) <==> Proven(runs[i], item.expected)
    {
      CellOfEvaluated(runs[i], item.key);
      EvidenceExact(runs[i], item.expected);
    }
    forall k
      ensures HasRepetition(records, item.key, k) <==> HasRun(runs, item.key, k)
    {
    }
  }

  /** A campaign raises `KeyError`, and does so exactly when one of its runs names no client log or, being about a
      server setting, has no entry for its version or its setting. */
  lemma CampaignRaises(runs: seq<RunFiles>, n: int, expected: seq<Item>)
    ensures CampaignVerdict(runs, n, expected).Err? <==> exists j :: 0 <= j < |runs| && Unusable(runs[j])
    ensures CampaignVerdict(runs, n, expected).Err? ==> CampaignVerdict(runs, n, expected) == Err(KeyError)
  {
    hide Evaluated, Tally, Unusable, Relevant, Unplaced, AllFailures;
    forall j | 0 <= j < |runs|
      ensures Unusable(runs[j]) <==>
                || Evaluated(runs[j]).Err?
                || (Relevant(Evaluated(runs[j]).value) && Unplaced(Evaluated(runs[j]).value))
    {
      UnusableRun(runs[j]);
    }
    if AllEvaluated(runs) {
      var records := EvaluateAll(runs).value;
      TallyRaises(records);
      if Tally(records).Err? {
        var i :| 0 <= i < |records| && Relevant(records[i]) && Unplaced(records[i]);
        assert Unusable(runs[i]);
      }
      if j :| 0 <= j < |runs| && Unusable(runs[j]) {
        assert Relevant(records[j]) && Unplaced(records[j]);
      }
    }
  }

  predicate Unusable(e: RunFiles) {
    || e.clientLog == NoArtifact
    || (Relevant(e.record) && (e.provenance.serverVersion.Missing? || e.provenance.serverSetting.Missing?))
  }

  lemma UnusableRun(e: RunFiles)
    ensures Unusable(e) <==>
              || Evaluated(e).Err?
              || (Relevant(Evaluated(e).value) && Unplaced(Evaluated(e).value))
  {
    hide Summarize;
  }

  /** The verdict over a campaign, in terms of captures: nothing raises, each expected cell has exactly one run for each
      repetition, and every run of the cell is proven by its capture. */
  lemma EvidenceVerdict(runs: seq<RunFiles>, n: int, expected: seq<Item>)
    ensures CampaignVerdict(runs, n, expected) == Ok(true) <==>
              && EvaluateAll(runs).Ok? && Tally(EvaluateAll(runs).value).Ok?
              && forall i :: 0 <= i < |expected| ==> CellProven(runs, expected[i], n)
  {
    hide Tally, CellProven, CellHolds, EvaluateAll, AllFailures;
    if EvaluateAll(runs).Ok? && Tally(EvaluateAll(runs).value).Ok? {
      var records := EvaluateAll(runs).value;
      VerdictExact(records, n, expected);
      forall i | 0 <= i < |expected|
        ensures CellHolds(records, expected[i], n) <==> CellProven(runs, expected[i], n)
      {
        CellProvenExact(runs, expected[i], n);
      }
    }
  }

  /** If the verdict over a campaign is true, then every run of every expected cell succeeded, is complete, and left a
      capture whose first ClientHello advertises both groups with the classical share alone, and in which a retry is
      present exactly when one is expected.  At exactly one offset of its bytes stands a ServerHello that is no retry
      request, and it carries the expected group. */
  lemma EvidenceChain(runs: seq<RunFiles>, n: int, expected: seq<Item>, i: nat, j: nat)
    requires CampaignVerdict(runs, n, expected) == Ok(true)
    requires i < |expected| && j < |runs| && runs[j].record.faultType == "server-setting"
    requires runs[j].provenance.serverVersion == Stored(expected[i].key.version)
    requires runs[j].provenance.serverSetting == Stored(expected[i].key.setting)
    ensures var e := runs[j];
            && 1 <= e.record.repetition <= n
            && e.record.metrics.handshakeResult == "success" && e.record.artifactsComplete
            && e.provenance.serverBin !in {Missing, Null, Text("")}
            && e.provenance.clientBin !in {Missing, Null, Text("")}
            && e.clientLog == LogFile(expected[i].expected.hrr)
    ensures runs[j].capture.Some? && runs[j].capture.value != []
    ensures Summarize(runs[j].capture.value).clientHellos != []
    ensures var s := Summarize(runs[j].capture.value);
            && 0x001D in s.clientHellos[0].groups && 0x11EC in s.clientHellos[0].groups
            && s.clientHellos[0].shares == [0x001D]
            && ((exists v :: v in s.serverHellos && v.isHrr) <==> expected[i].expected.hrr)
    ensures var code := if expected[i].expected.finalGroup == "X25519MLKEM768" then 0x11EC else 0x001D;
            exists k: nat :: OnlyRealHello(runs[j].capture.value, k, code)
  {
    hide OnlyRealHello, EvaluateAll, Reproduced, Summarize, OneReal;
    EvidenceVerdict(runs, n, expected);
    assert CellProven(runs, expected[i], n);
    assert InCell(runs[j], expected[i].key);
    assert Proven(runs[j], expected[i].expected);
    NegotiatedInBytes(runs[j], expected[i].expected);
  }

  /** One run of an expected cell without a capture, or with an empty one, keeps the verdict from being true, whatever
      the cell expects about retries. */
  lemma MissingCaptureFails(runs: seq<RunFiles>, n: int, expected: seq<Item>, i: nat, j: nat)
    requires i < |expected| && j < |runs| && InCell(runs[j], expected[i].key)
    requires runs[j].capture.None? || runs[j].capture == Some([])
    ensures CampaignVerdict(runs, n, expected) != Ok(true)
  {
    hide EvaluateAll, Reproduced, OnlyRealHello, Summarize;
    if CampaignVerdict(runs, n, expected) == Ok(true) {
      EvidenceChain(runs, n, expected, i, j);
    }
  }
}

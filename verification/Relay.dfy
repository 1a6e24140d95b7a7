/** The one-shot mutating relay: what it forwards over every interleaving of client and server chunks. */
module Relay {
  import opened Bytes
  import opened ProxyLog

  /** A logging mutator: the event and group it logs, and the rewrite it tries.  `digest` is SHA-256 in
      hexadecimal, as far as this model needs it. */
  datatype Mutator = Mutator(event: string, group: string, transform: bytes -> Result<bytes>, digest: bytes -> string) {
    /** The rewrite ends in an exception that the mutator does not catch. */
    predicate Raises(data: bytes) {
      transform(data).Err? && transform(data).error != ValueError
    }

    /** The bytes the mutator returns when it returns: a `ValueError` of the rewrite leaves the data as it is. */
    function Image(data: bytes): bytes {
      var r := transform(data);
      if r.Ok? then r.value else data
    }

    predicate Changes(data: bytes) {
      Image(data) != data
    }

    /** The log after one call. */
    function Logged(log: Log, data: bytes): Log {
      if Changes(data) then Append(log, LogLine(event, group, digest(data), digest(Image(data)))) else log
    }

    /** The rewrite raises nothing but the `ValueError` the mutator catches. */
    ghost predicate Catches() {
      forall data :: !Raises(data)
    }
  }

  datatype Side = ClientSide | ServerSide

  /** One `recv`: no data means that side has shut down. */
  datatype Event = Event(source: Side, data: bytes)

  /** What the relay has sent so far, what it remembers, and the exception that ended it, if any. */
  datatype State = State(
    mutated: bool, upstream: seq<bytes>, downstream: seq<bytes>, clientToServer: nat, serverToClient: nat,
    open: set<Side>, log: Log, raised: Option<Error>)

  function Initial(log: Log): State {
    State(false, [], [], 0, 0, {ClientSide, ServerSide}, log, None)
  }

  /** One pass of the relay loop body. */
  function Step(m: Mutator, s: State, e: Event): State {
    if e.data == [] then s.(open := s.open - {e.source})
    else if e.source == ServerSide then
      s.(downstream := s.downstream + [e.data], serverToClient := s.serverToClient + |e.data|)
    else if s.mutated then
      s.(upstream := s.upstream + [e.data], clientToServer := s.clientToServer + |e.data|)
    else if m.Raises(e.data) then
      s.(raised := Some(m.transform(e.data).error))
    else
      s.(mutated := m.Changes(e.data), upstream := s.upstream + [m.Image(e.data)],
         clientToServer := s.clientToServer + |m.Image(e.data)|, log := m.Logged(s.log, e.data))
  }

  /** Events in order, up to an exception. */
  function Run(m: Mutator, s: State, events: seq<Event>): State
    decreases |events|
  {
    if events == [] || s.raised.Some? then s else Run(m, Step(m, s, events[0]), events[1..])
  }

  /** All reads of a connection: the payload read before the loop, unless the client has already shut down, and the
      events of the loop. */
  function Session(first: bytes, events: seq<Event>): seq<Event> {
    (if first == [] then [] else [Event(ClientSide, first)]) + events
  }

  function Proxied(m: Mutator, log: Log, first: bytes, events: seq<Event>): State {
    Run(m, Initial(log), Session(first, events))
  }

  /** `select` reports only sockets that are still open. */
  predicate Deliverable(open: set<Side>, events: seq<Event>)
    decreases |events|
  {
    events == []
    || (events[0].source in open
        && Deliverable(if events[0].data == [] then open - {events[0].source} else open, events[1..]))
  }

  datatype ProxyResult = ProxyResult(mutated: bool, clientToServerBytes: nat, serverToClientBytes: nat)

  /** The exception a result carries, as the state records it. */
  function Raised<T>(r: Result<T>): Option<Error> {
    if r.Err? then Some(r.error) else None
  }

  /** The relay as the source runs it: fields updated chunk by chunk. */
  class Proxy {
    const mutator: Mutator
    var mutated: bool
    var clientToServerBytes: nat
    var serverToClientBytes: nat
    var openSockets: set<Side>
    var upstream: seq<bytes>
    var downstream: seq<bytes>
    var log: Log

    /** The state, if no exception has been raised. */
    ghost function Value(): State
      reads this
    {
      State(mutated, upstream, downstream, clientToServerBytes, serverToClientBytes, openSockets, log, None)
    }

    constructor (mutator: Mutator, log: Log)
      ensures this.mutator == mutator && Value() == Initial(log)
    {
      this.mutator := mutator;
      mutated, clientToServerBytes, serverToClientBytes := false, 0, 0;
      openSockets, upstream, downstream := {ClientSide, ServerSide}, [], [];
      this.log := log;
    }

    /** The `mutate` closures: `ValueError` is caught, any other exception goes through, and the log grows exactly when
        the rewrite changed something. */
    method Mutate(data: bytes) returns (r: Result<bytes>)
      modifies this`log
      ensures r == if mutator.Raises(data) then Err(mutator.transform(data).error) else Ok(mutator.Image(data))
      ensures log == mutator.Logged(old(log), data)
    {
      r := mutator.transform(data);
      if r == Err(ValueError) {
        return Ok(data);
      }
      var forged :- r;
      if forged != data {
        log := Append(log, LogLine(mutator.event, mutator.group, mutator.digest(data), mutator.digest(forged)));
      }
    }

    method SendUpstream(data: bytes)
      modifies this`upstream, this`clientToServerBytes
      ensures upstream == old(upstream) + [data] && clientToServerBytes == old(clientToServerBytes) + |data|
    {
      upstream := upstream + [data];
      clientToServerBytes := clientToServerBytes + |data|;
    }

    /** The payload read before the loop starts. */
    method FirstPayload(first: bytes) returns (r: Result<()>)
      requires Value() == Initial(log)
      modifies this
      ensures Value().(raised := Raised(r)) == Proxied(mutator, old(log), first, [])
    {
      SessionOfFirst(mutator, log, first);
      if first != [] {
        var forged :- Mutate(first);
        SendUpstream(forged);
        mutated := forged != first;
      }
      return Ok(());
    }

    /** One readable socket of the loop. */
    method Receive(e: Event) returns (r: Result<()>)
      requires e.source in openSockets
      modifies this
      ensures Value().(raised := Raised(r)) == Step(mutator, old(Value()), e)
    {
      if e.data == [] {
        openSockets := openSockets - {e.source};
      } else if e.source == ClientSide {
        var forwarded := e.data;
        if !mutated {
          forwarded :- Mutate(e.data);
          mutated := forwarded != e.data;
        }
        SendUpstream(forwarded);
      } else {
        downstream := downstream + [e.data];
        serverToClientBytes := serverToClientBytes + |e.data|;
      }
      return Ok(());
    }

    /** `run_proxy`, from the first read to the end of the events: both sides shut down, or nothing readable
        within the timeout, or an exception of the mutator. */
    method RunProxy(first: bytes, events: seq<Event>) returns (result: Result<ProxyResult>)
      requires Value() == Initial(log) && Deliverable({ClientSide, ServerSide}, events)
      modifies this
      ensures Value().(raised := Raised(result)) == Proxied(mutator, old(log), first, events)
      ensures result.Ok? ==> result.value == ProxyResult(mutated, clientToServerBytes, serverToClientBytes)
    {
      hide Step, Handled;
      ghost var whole := Proxied(mutator, log, first, events);
      RunConcat(mutator, Initial(log), Session(first, []), events);
      assert Session(first, []) + events == Session(first, events);
      SessionOfFirst(mutator, log, first);
      StepOpen(mutator, Initial(log), Event(ClientSide, first));
      var begun := FirstPayload(first);
      if begun.Err? {
        return Err(begun.error);
      }
      var i := 0;
      while openSockets != {} && i < |events|
        invariant 0 <= i <= |events|
        invariant Deliverable(openSockets, events[i..])
        invariant whole == Run(mutator, Value(), events[i..])
        decreases |events| - i
      {
        assert events[i..][1..] == events[i + 1..];
        StepOpen(mutator, Value(), events[i]);
        var received := Receive(events[i]);
        if received.Err? {
          return Err(received.error);
        }
        i := i + 1;
      }
      return Ok(ProxyResult(mutated, clientToServerBytes, serverToClientBytes));
    }
  }

  lemma StepOpen(m: Mutator, s: State, e: Event)
    ensures Step(m, s, e).open == if e.data == [] then s.open - {e.source} else s.open
  {
  }

  lemma SessionOfFirst(m: Mutator, log: Log, first: bytes)
    ensures Proxied(m, log, first, [])
            == if first == [] then Initial(log) else Step(m, Initial(log), Event(ClientSide, first))
  {
    hide Step;
    if first != [] {
      var e := Event(ClientSide, first);
      var s := Step(m, Initial(log), e);
      assert Session(first, []) == [e] && [e][1..] == [];
      assert Run(m, s, []) == s;
      assert Run(m, Initial(log), [e]) == Run(m, s, [e][1..]);
    }
  }

  lemma {:induction false} RunConcat(m: Mutator, s: State, a: seq<Event>, b: seq<Event>)
    ensures Run(m, s, a + b) == Run(m, Run(m, s, a), b)
    decreases |a|
  {
    hide Step;
    if a == [] {
      assert a + b == b;
    } else if s.raised.None? {
      assert (a + b)[1..] == a[1..] + b;
      RunConcat(m, Step(m, s, a[0]), a[1..], b);
    }
  }

  // ---- safety over every run

  /** How many events are handled before the one that ends the run, if one does. */
  function Handled(m: Mutator, mutated: bool, events: seq<Event>): (j: nat)
    ensures j <= |events|
    decreases |events|
  {
    if events == [] then 0
    else
      var e := events[0];
      var tried := !mutated && e.source == ClientSide && e.data != [];
      if tried && m.Raises(e.data) then 0
      else 1 + Handled(m, mutated || (tried && m.Changes(e.data)), events[1..])
  }

  /** The events a run handles: all of them, unless the mutator lets an exception through. */
  function Delivered(m: Mutator, first: bytes, events: seq<Event>): seq<Event> {
    Session(first, events)[..Handled(m, false, Session(first, events))]
  }

  /** The chunks a side sent, in order. */
  function Chunks(events: seq<Event>, side: Side): seq<bytes> {
    if events == [] then []
    else (if events[0].source == side && events[0].data != [] then [events[0].data] else []) + Chunks(events[1..], side)
  }

  /** The client chunks the relay handles. */
  function ClientChunks(m: Mutator, first: bytes, events: seq<Event>): seq<bytes> {
    Chunks(Delivered(m, first, events), ClientSide)
  }

  /** The index of the first chunk the mutator changes, or the number of chunks. */
  function FirstChanged(m: Mutator, chunks: seq<bytes>): (k: nat)
    ensures k <= |chunks|
    ensures k < |chunks| ==> m.Changes(chunks[k])
    ensures forall j :: 0 <= j < k ==> !m.Changes(chunks[j])
  {
    if chunks == [] || m.Changes(chunks[0]) then 0 else 1 + FirstChanged(m, chunks[1..])
  }

  function Total(chunks: seq<bytes>): nat {
    if chunks == [] then 0 else Total(chunks[..|chunks| - 1]) + |chunks[|chunks| - 1]|
  }

  /** The state is what the chunks handled so far account for. */
  ghost predicate Accounts(m: Mutator, log: Log, s: State, client: seq<bytes>, server: seq<bytes>) {
    var k := FirstChanged(m, client);
    && s.mutated == (k < |client|)
    && s.upstream == (if k < |client| then client[k := m.Image(client[k])] else client)
    && s.downstream == server
    && s.clientToServer == Total(s.upstream) && s.serverToClient == Total(s.downstream)
    && s.log == (if k < |client| then m.Logged(log, client[k]) else log)
  }

  lemma TotalSnoc(chunks: seq<bytes>, chunk: bytes)
    ensures Total(chunks + [chunk]) == Total(chunks) + |chunk|
  {
    assert (chunks + [chunk])[..|chunks|] == chunks;
  }

  lemma FirstChangedSnoc(m: Mutator, chunks: seq<bytes>, chunk: bytes)
    ensures var k := FirstChanged(m, chunks);
            FirstChanged(m, chunks + [chunk])
            == if k < |chunks| then k else if m.Changes(chunk) then |chunks| else |chunks| + 1
  {
    var k, l := FirstChanged(m, chunks), FirstChanged(m, chunks + [chunk]);
    assert forall j :: 0 <= j < |chunks| ==> (chunks + [chunk])[j] == chunks[j];
    assert (chunks + [chunk])[|chunks|] == chunk;
  }

  lemma StepAccounts(m: Mutator, log: Log, s: State, e: Event, client: seq<bytes>, server: seq<bytes>)
    requires Accounts(m, log, s, client, server) && s.raised.None? && Step(m, s, e).raised.None?
    ensures Accounts(m, log, Step(m, s, e), client + Chunks([e], ClientSide), server + Chunks([e], ServerSide))
  {
    hide FirstChanged, Total;
    assert [e][1..] == [] && Chunks([], ClientSide) == [] && Chunks([], ServerSide) == [];
    var c, d := Chunks([e], ClientSide), Chunks([e], ServerSide);
    if e.data == [] {
      assert client + c == client && server + d == server;
    } else if e.source == ServerSide {
      assert client + c == client && server + d == server + [e.data];
      TotalSnoc(server, e.data);
    } else {
      assert client + c == client + [e.data] && server + d == server;
      FirstChangedSnoc(m, client, e.data);
      TotalSnoc(s.upstream, if s.mutated then e.data else m.Image(e.data));
    }
  }

  lemma ChunksCons(e: Event, rest: seq<Event>, side: Side)
    ensures Chunks([e] + rest, side) == Chunks([e], side) + Chunks(rest, side)
  {
    assert ([e] + rest)[1..] == rest && [e][1..] == [] && Chunks([], side) == [];
  }

  /** How a run ends: every event handled, or the next one a client chunk on which the mutator raised. */
  ghost predicate Ends(m: Mutator, raised: Option<Error>, j: nat, events: seq<Event>)
    requires j <= |events|
  {
    if raised.None? then j == |events|
    else j < |events| && events[j].source == ClientSide && events[j].data != [] && m.Raises(events[j].data)
         && raised == Some(m.transform(events[j].data).error)
  }

  lemma {:induction false} RunAccounts(
    m: Mutator, log: Log, s: State, events: seq<Event>, client: seq<bytes>, server: seq<bytes>)
    requires Accounts(m, log, s, client, server) && s.raised.None?
    ensures var s', j := Run(m, s, events), Handled(m, s.mutated, events);
            && Accounts(m, log, s', client + Chunks(events[..j], ClientSide), server + Chunks(events[..j], ServerSide))
            && Ends(m, s'.raised, j, events)
    decreases |events|
  {
    hide Chunks, Accounts;
    var j := Handled(m, s.mutated, events);
    if events == [] || Step(m, s, events[0]).raised.Some? {
      NoChunks(ClientSide);
      NoChunks(ServerSide);
      assert events[..j] == [] && client + [] == client && server + [] == server;
      if events != [] {
        assert Run(m, s, events) == Step(m, s, events[0]);
        AccountsIgnoresRaise(m, log, s, client, server, Step(m, s, events[0]).raised);
      }
    } else {
      var e, rest := events[0], events[1..];
      var c, d := client + Chunks([e], ClientSide), server + Chunks([e], ServerSide);
      StepAccounts(m, log, s, e, client, server);
      RunAccounts(m, log, Step(m, s, e), rest, c, d);
      assert events[..j] == [e] + rest[..j - 1];
      ChunksCons(e, rest[..j - 1], ClientSide);
      ChunksCons(e, rest[..j - 1], ServerSide);
      assert c + Chunks(rest[..j - 1], ClientSide) == client + Chunks(events[..j], ClientSide);
      assert d + Chunks(rest[..j - 1], ServerSide) == server + Chunks(events[..j], ServerSide);
    }
  }

  lemma NoChunks(side: Side)
    ensures Chunks([], side) == []
  {
  }

  lemma AccountsIgnoresRaise(
    m: Mutator, log: Log, s: State, client: seq<bytes>, server: seq<bytes>, raised: Option<Error>)
    requires Accounts(m, log, s, client, server)
    ensures Accounts(m, log, s.(raised := raised), client, server)
  {
  }

  /** Whatever the interleaving: upstream gets the handled client chunks with at most one of them, the first the mutator
      changes, replaced by its image; the client gets the server's chunks verbatim; the counters are the lengths of
      what was forwarded; and the log grew by one line if a chunk was changed and not otherwise.  Every event is
      handled, or the run ended with the exception the mutator raised on the next client chunk. */
  lemma RelaySafety(m: Mutator, log: Log, first: bytes, events: seq<Event>)
    ensures var s, done := Proxied(m, log, first, events), Delivered(m, first, events);
            && Accounts(m, log, s, Chunks(done, ClientSide), Chunks(done, ServerSide))
            && Ends(m, s.raised, |done|, Session(first, events))
  {
    hide Accounts, Step, Run, Chunks, Handled;
    NothingYet(m, log);
    var session := Session(first, events);
    RunAccounts(m, log, Initial(log), session, [], []);
    var done := Delivered(m, first, events);
    assert [] + Chunks(done, ClientSide) == Chunks(done, ClientSide);
    assert [] + Chunks(done, ServerSide) == Chunks(done, ServerSide);
  }

  lemma NothingYet(m: Mutator, log: Log)
    ensures Accounts(m, log, Initial(log), [], [])
  {
  }

  /** A mutator that catches everything its rewrite raises handles every event. */
  lemma NothingRaised(m: Mutator, log: Log, first: bytes, events: seq<Event>)
    requires m.Catches()
    ensures Delivered(m, first, events) == Session(first, events)
    ensures Proxied(m, log, first, events).raised == None
  {
    hide Accounts, Run, Chunks, Handled;
    RelaySafety(m, log, first, events);
  }

  lemma {:induction false} NoneHandled(m: Mutator, events: seq<Event>)
    requires forall data :: m.Raises(data)
    ensures Chunks(events[..Handled(m, false, events)], ClientSide) == []
    ensures Chunks(events, ClientSide) == [] <==> Handled(m, false, events) == |events|
    decreases |events|
  {
    hide Mutator.Raises;
    if events != [] {
      var e, rest := events[0], events[1..];
      NoneHandled(m, rest);
      if e.source != ClientSide || e.data == [] {
        assert events[..Handled(m, false, events)][1..] == rest[..Handled(m, false, rest)];
      }
    }
  }

  /** A mutator that raises on everything ends the run at the first client chunk, and nothing goes upstream. */
  lemma AlwaysRaises(m: Mutator, log: Log, first: bytes, events: seq<Event>)
    requires forall data :: m.Raises(data)
    ensures var s := Proxied(m, log, first, events);
            && s.upstream == [] && !s.mutated && s.log == log
            && (s.raised.Some? <==> Chunks(Session(first, events), ClientSide) != [])
  {
    hide Run, Chunks, Handled, Session, Mutator.Raises, FirstChanged;
    RelaySafety(m, log, first, events);
    NoneHandled(m, Session(first, events));
    FirstChangedBound(m, []);
  }

  // ---- the first payload only?

  /** Every chunk but the first passes verbatim, as the description of the relay has it, exactly when the mutator
      changes the first chunk or none: a caller can tell from the chunks alone. */
  lemma FirstPayloadOnly(m: Mutator, log: Log, first: bytes, events: seq<Event>)
    ensures var s, client := Proxied(m, log, first, events), ClientChunks(m, first, events);
            && |s.upstream| == |client|
            && ((forall i :: 1 <= i < |client| ==> s.upstream[i] == client[i])
                <==> |client| == 0 || m.Changes(client[0]) || forall i :: 0 <= i < |client| ==> !m.Changes(client[i]))
  {
    hide Run, Chunks, Handled, Total;
    RelaySafety(m, log, first, events);
    var s, client := Proxied(m, log, first, events), ClientChunks(m, first, events);
    var k := FirstChanged(m, client);
    if 1 <= k < |client| {
      assert s.upstream[k] != client[k];
    }
  }

  // ---- conservation

  ghost predicate KeepsLength(m: Mutator) {
    forall data :: |m.Image(data)| == |data|
  }

  ghost predicate NeverGrows(m: Mutator) {
    forall data :: |m.Image(data)| <= |data|
  }

  lemma {:induction false} TotalUpdate(chunks: seq<bytes>, k: nat, chunk: bytes)
    requires k < |chunks|
    ensures Total(chunks[k := chunk]) + |chunks[k]| == Total(chunks) + |chunk|
  {
    var n := |chunks| - 1;
    if k == n {
      assert chunks[k := chunk][..n] == chunks[..n];
    } else {
      assert chunks[k := chunk][..n] == chunks[..n][k := chunk];
      TotalUpdate(chunks[..n], k, chunk);
    }
  }

  /** What was sent upstream and what was read from the client differ by what the one changed chunk lost or gained: so a
      mutator that never grows its input forwards at most what it read, and one that keeps lengths exactly that. */
  lemma RelayConservation(m: Mutator, log: Log, first: bytes, events: seq<Event>)
    ensures var s, client := Proxied(m, log, first, events), ClientChunks(m, first, events);
            var k, read := FirstChanged(m, client), Total(client);
            && (k == |client| ==> s.clientToServer == read)
            && (k < |client| ==> s.clientToServer + |client[k]| == read + |m.Image(client[k])|)
            && (NeverGrows(m) ==> s.clientToServer <= read)
            && (KeepsLength(m) ==> s.clientToServer == read)
            && s.serverToClient == Total(Chunks(Delivered(m, first, events), ServerSide))
  {
    hide Run, Total, FirstChanged, Handled, Chunks, Mutator.Image;
    RelaySafety(m, log, first, events);
    var client := ClientChunks(m, first, events);
    var k := FirstChanged(m, client);
    FirstChangedBound(m, client);
    if k < |client| {
      TotalUpdate(client, k, m.Image(client[k]));
    }
  }

  lemma FirstChangedBound(m: Mutator, chunks: seq<bytes>)
    ensures FirstChanged(m, chunks) <= |chunks|
  {
  }

  /** A side is closed exactly when a handled event showed it shut down. */
  lemma {:induction false} OpenSides(m: Mutator, s: State, events: seq<Event>)
    requires s.raised.None?
    ensures var done := events[..Handled(m, s.mutated, events)];
            Run(m, s, events).open == s.open - set e | e in done && e.data == [] :: e.source
    decreases |events|
  {
    hide Mutator.Logged;
    var done := events[..Handled(m, s.mutated, events)];
    if events == [] || Step(m, s, events[0]).raised.Some? {
      assert done == [];
    } else {
      var e, rest := events[0], events[1..];
      var s' := Step(m, s, e);
      OpenSides(m, s', rest);
      var later := rest[..Handled(m, s'.mutated, rest)];
      assert done == [e] + later;
      assert forall x :: x in done <==> x == e || x in later;
    }
  }
}

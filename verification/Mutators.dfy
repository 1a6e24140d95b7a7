/** The mutators the experiments install in the relay, what they let through, what they cost, and what the log of a run
    says about it. */
module Mutators {
  import opened Bytes
  import opened Extensions
  import opened ClientHelloFrame
  import opened ClientHelloStrip
  import opened ClientHelloForge
  import SshKex
  import opened ProxyLog
  import opened Relay

  const BINDING := "binding_mutation"
  const STRIP := "strip_mutation"

  function TlsForger(g: int, group: string, digest: bytes -> string): Mutator {
    Mutator(BINDING, group, data => Forge(data, g), digest)
  }

  function SshForger(group: string, digest: bytes -> string): Mutator {
    Mutator(BINDING, group, data => SshKex.ForgeSsh(data), digest)
  }

  function TlsStripper(g: int, group: string, digest: bytes -> string): Mutator {
    Mutator(STRIP, group, data => Strip(data, g), digest)
  }

  function SshStripper(algorithm: string, digest: bytes -> string): Mutator {
    Mutator(STRIP, algorithm, data => SshKex.StripKexinit(data, algorithm), digest)
  }

  /** No exception escapes from any of the four, and forging keeps lengths while stripping never adds bytes. */
  lemma TlsForgerFacts(g: int, group: string, digest: bytes -> string)
    requires PqComponent(g).Ok?
    ensures TlsForger(g, group, digest).Catches() && KeepsLength(TlsForger(g, group, digest))
  {
    hide FindShares, ClientHelloExtensions, First;
    var m := TlsForger(g, group, digest);
    forall data: bytes
      ensures !m.Raises(data)
      ensures |m.Image(data)| == |data|
    {
      assert m.transform(data) == Forge(data, g);
      FindSharesRaises(data);
    }
  }

  lemma SshForgerFacts(group: string, digest: bytes -> string)
    ensures SshForger(group, digest).Catches() && KeepsLength(SshForger(group, digest))
  {
    var m := SshForger(group, digest);
    forall data: bytes
      ensures !m.Raises(data)
      ensures |m.Image(data)| == |data|
    {
      assert m.transform(data) == SshKex.ForgeSsh(data);
    }
  }

  lemma TlsStripperFacts(g: int, group: string, digest: bytes -> string)
    ensures TlsStripper(g, group, digest).Catches() && NeverGrows(TlsStripper(g, group, digest))
  {
    hide Strip, Meaning, ClientHelloExtensions;
    var m := TlsStripper(g, group, digest);
    forall data: bytes
      ensures !m.Raises(data)
      ensures |m.Image(data)| <= |data|
    {
      assert m.transform(data) == Strip(data, g);
      StripAcceptance(data, g);
      if Strip(data, g).Ok? {
        StripLengths(data, g);
      }
    }
  }

  lemma SshStripperFacts(algorithm: string, digest: bytes -> string)
    ensures SshStripper(algorithm, digest).Catches() && NeverGrows(SshStripper(algorithm, digest))
  {
    hide SshKex.StripKexinit, SshKex.KexinitBounds;
    var m := SshStripper(algorithm, digest);
    forall data: bytes
      ensures !m.Raises(data)
      ensures |m.Image(data)| <= |data|
    {
      assert m.transform(data) == SshKex.StripKexinit(data, algorithm);
      SshKex.SshStripRaises(data, algorithm);
      if SshKex.KexinitAlgorithms(data).Ok? {
        SshKex.SshStripLaw(data, algorithm);
      }
    }
  }

  // ---- conservation

  /** Forging sends upstream as many bytes as it read.  A known group is forged without an exception over the whole run;
      for any other the run ends with `KeyError` at the first client chunk. */
  lemma TlsForgerConserves(
    g: int, group: string, digest: bytes -> string, log: Log, first: bytes, events: seq<Event>)
    ensures var m := TlsForger(g, group, digest);
            var s := Proxied(m, log, first, events);
            && s.clientToServer == Total(ClientChunks(m, first, events))
            && (g == 0x11EC || g == 0x6399 ==>
                  s.raised == None && Delivered(m, first, events) == Session(first, events))
            && (g != 0x11EC && g != 0x6399 ==>
                  && s.upstream == []
                  && (s.raised == Some(KeyError) <==> Chunks(Session(first, events), ClientSide) != []))
  {
    hide FindShares, Run, Handled, Chunks, Session, Total, FirstChanged, Forge;
    var m := TlsForger(g, group, digest);
    RelayConservation(m, log, first, events);
    if PqComponent(g).Ok? {
      TlsForgerFacts(g, group, digest);
      NothingRaised(m, log, first, events);
    } else {
      forall data: bytes
        ensures m.transform(data) == Err(KeyError)
      {
        ForgeKeepsClassicalHalf(data, g);
      }
      AlwaysRaises(m, log, first, events);
      RelaySafety(m, log, first, events);
    }
  }

  lemma SshForgerConserves(group: string, digest: bytes -> string, log: Log, first: bytes, events: seq<Event>)
    ensures var m := SshForger(group, digest);
            var s := Proxied(m, log, first, events);
            && s.raised == None && Delivered(m, first, events) == Session(first, events)
            && s.clientToServer == Total(ClientChunks(m, first, events))
  {
    hide Run, Handled, Chunks, Session, Total, FirstChanged, SshKex.ForgeSsh;
    var m := SshForger(group, digest);
    SshForgerFacts(group, digest);
    RelayConservation(m, log, first, events);
    NothingRaised(m, log, first, events);
  }

  /** Every byte read from the client is sent upstream, but for the removed groups and shares of the changed chunk and
      the two slacks of its record. */
  lemma TlsStripperConserves(
    g: int, group: string, digest: bytes -> string, log: Log, first: bytes, events: seq<Event>)
    ensures var m := TlsStripper(g, group, digest);
            var s, client := Proxied(m, log, first, events), ClientChunks(m, first, events);
            var k, read := FirstChanged(m, client), Total(client);
            && s.raised == None && Delivered(m, first, events) == Session(first, events)
            && (k == |client| ==> read == s.clientToServer)
            && (k < |client| ==>
                  && Meaning(client[k]).Ok?
                  && var xs, f := Meaning(client[k]).value, FrameOf(client[k]);
                     read == s.clientToServer + RemovedTotal(xs, g) + |f.hsSlack| + |f.recSlack|)
  {
    hide Run, Handled, Chunks, Session, Total, FirstChanged, Meaning, Strip, ClientHelloExtensions, FrameOf,
         RemovedTotal;
    var m, client := TlsStripper(g, group, digest), ClientChunks(TlsStripper(g, group, digest), first, events);
    TlsStripperFacts(g, group, digest);
    RelayConservation(m, log, first, events);
    NothingRaised(m, log, first, events);
    FirstChangedBound(m, client);
    var k := FirstChanged(m, client);
    if k < |client| {
      StripAcceptance(client[k], g);
      StripLengths(client[k], g);
    }
  }

  /** Every byte read from the client is sent upstream, but for the removed names and all that followed the packet in
      the changed chunk. */
  lemma SshStripperConserves(algorithm: string, digest: bytes -> string, log: Log, first: bytes, events: seq<Event>)
    ensures var m := SshStripper(algorithm, digest);
            var s, client := Proxied(m, log, first, events), ClientChunks(m, first, events);
            var k, read := FirstChanged(m, client), Total(client);
            && s.raised == None && Delivered(m, first, events) == Session(first, events)
            && (k == |client| ==> read == s.clientToServer)
            && (k < |client| ==>
                  && SshKex.KexinitBounds(client[k]).Some? && SshKex.KexinitBounds(m.Image(client[k])).Some?
                  && var before, after := SshKex.KexinitOf(client[k]), SshKex.KexinitOf(m.Image(client[k]));
                     read == s.clientToServer + (|before.names| - |after.names|) + |before.tail|)
  {
    hide Run, Handled, Chunks, Session, Total, FirstChanged, SshKex.StripKexinit, SshKex.KexinitBounds,
         SshKex.KexinitOf;
    var m, client := SshStripper(algorithm, digest), ClientChunks(SshStripper(algorithm, digest), first, events);
    SshStripperFacts(algorithm, digest);
    RelayConservation(m, log, first, events);
    NothingRaised(m, log, first, events);
    FirstChangedBound(m, client);
    var k := FirstChanged(m, client);
    if k < |client| {
      SshLoss(client[k], algorithm);
    }
  }

  lemma SshLoss(packet: bytes, algorithm: string)
    ensures SshKex.StripKexinit(packet, algorithm).Ok? ==>
              var out := SshKex.StripKexinit(packet, algorithm).value;
              out != packet ==>
                && SshKex.KexinitBounds(packet).Some? && SshKex.KexinitBounds(out).Some?
                && var before, after := SshKex.KexinitOf(packet), SshKex.KexinitOf(out);
                   |packet| == |out| + (|before.names| - |after.names|) + |before.tail|
  {
    hide SshKex.StripKexinit, SshKex.KexinitBounds, SshKex.KexinitOf, SshKex.Kexinit.Print, SshKex.Kexinit.Valid;
    SshKex.SshStripRaises(packet, algorithm);
    if SshKex.KexinitAlgorithms(packet).Ok? {
      SshKex.SshStripLaw(packet, algorithm);
      var out := SshKex.StripKexinit(packet, algorithm).value;
      SshKex.PrintKexinitOf(packet);
      SshKex.PrintKexinitOf(out);
      SshKex.KexinitFields(SshKex.KexinitOf(packet));
      SshKex.KexinitFields(SshKex.KexinitOf(out));
    }
  }

  // ---- the log of a run

  /** Digests that a log line can carry: not empty and without white space, as hexadecimal digits are. */
  ghost predicate PlainDigest(digest: bytes -> string) {
    forall data :: Plain(digest(data)) && digest(data) != ""
  }

  /** The log of a run on a complete log.  If no chunk was changed it is what it was.  Otherwise a reader sees one more
      line, and its four fields are the event, the group, the digest of the chunk as the client sent it and the digest
      of the chunk as it went upstream. */
  lemma RunLog(m: Mutator, log: Log, first: bytes, events: seq<Event>)
    requires Plain(m.event) && Plain(m.group) && PlainDigest(m.digest) && Terminated(log)
    ensures var s, client := Proxied(m, log, first, events), ClientChunks(m, first, events);
            var k := FirstChanged(m, client);
            && (!s.mutated ==> s.log == log)
            && (s.mutated ==>
                  && k < |client| && k < |s.upstream| && s.log.Some?
                  && var before := if log.None? then [] else Lines(log.value, "");
                  && var after := Lines(s.log.value, "");
                  && |after| == |before| + 1 && after[..|before|] == before
                  && FieldsOf(after[|before|])
                     == map["event" := m.event, "group_id" := m.group,
                            "before_sha256" := m.digest(client[k]), "after_sha256" := m.digest(s.upstream[k])])
  {
    hide Run, LogLine, Append, Plain, Chunks, Handled, Terminated, Lines, FieldsOf, Entry, Mutator.Image;
    RelaySafety(m, log, first, events);
    var client := ClientChunks(m, first, events);
    var k := FirstChanged(m, client);
    if k < |client| {
      var a, b := m.digest(client[k]), m.digest(m.Image(client[k]));
      assert Plain(a) && Plain(b);
      LinesOfAppended(log, m.event, m.group, a, b);
      FieldsOfEntry(m.event, m.group, a, b);
      AppendMakes(log, LogLine(m.event, m.group, a, b));
    }
  }

  lemma AppendMakes(log: Log, text: string)
    ensures Append(log, text).Some?
  {
  }

  /** What the installed mutators write into the first field. */
  lemma InstalledEvents(g: int, group: string, algorithm: string, digest: bytes -> string)
    ensures TlsForger(g, group, digest).event == SshForger(group, digest).event == "binding_mutation"
    ensures TlsStripper(g, group, digest).event == SshStripper(algorithm, digest).event == "strip_mutation"
    ensures SshStripper(algorithm, digest).group == algorithm && TlsStripper(g, group, digest).group == group
  {
  }

  /** After a run on a complete log, the binding verifier says yes exactly when it already did, or when the relay
      changed a chunk whose digest changed with it.  When nothing was changed and there was no log file, there
      still is none, and the verifier raises. */
  lemma BindingLogFaithful(m: Mutator, log: Log, first: bytes, events: seq<Event>)
    requires m.event == BINDING && Plain(m.group) && PlainDigest(m.digest) && Terminated(log)
    ensures var s, client := Proxied(m, log, first, events), ClientChunks(m, first, events);
            var k := FirstChanged(m, client);
            && s.mutated == (k < |client|)
            && VerifyBinding(s.log)
               == if !s.mutated then VerifyBinding(log)
                  else Ok(VerifyBinding(log) == Ok(true) || m.digest(client[k]) != m.digest(m.Image(client[k])))
  {
    hide Run, VerifyBinding, LogLine, Append, Plain, Chunks, Handled, Terminated;
    RelaySafety(m, log, first, events);
    var client := ClientChunks(m, first, events);
    var k := FirstChanged(m, client);
    if k < |client| {
      assert Plain(m.digest(client[k])) && Plain(m.digest(m.Image(client[k])));
      BindingVerified(log, m.group, m.digest(client[k]), m.digest(m.Image(client[k])));
    }
  }

  /** The same for the strip verifier. */
  lemma StripLogFaithful(m: Mutator, log: Log, first: bytes, events: seq<Event>)
    requires m.event == STRIP && Plain(m.group) && PlainDigest(m.digest) && Terminated(log)
    ensures var s, client := Proxied(m, log, first, events), ClientChunks(m, first, events);
            var k := FirstChanged(m, client);
            && s.mutated == (k < |client|)
            && VerifyStrip(s.log)
               == if !s.mutated then VerifyStrip(log)
                  else Ok(VerifyStrip(log) == Ok(true) || m.digest(client[k]) != m.digest(m.Image(client[k])))
  {
    hide Run, VerifyStrip, LogLine, Append, Plain, Chunks, Handled, Terminated;
    RelaySafety(m, log, first, events);
    var client := ClientChunks(m, first, events);
    var k := FirstChanged(m, client);
    if k < |client| {
      assert Plain(m.digest(client[k])) && Plain(m.digest(m.Image(client[k])));
      StripVerified(log, m.group, m.digest(client[k]), m.digest(m.Image(client[k])));
    }
  }

  /** From an empty log both verifiers return `mutated`, as long as the digests of the changed chunk differ. */
  lemma EmptyLogAnswers(m: Mutator, first: bytes, events: seq<Event>)
    requires (m.event == BINDING || m.event == STRIP) && Plain(m.group) && PlainDigest(m.digest)
    requires var client := ClientChunks(m, first, events);
             var k := FirstChanged(m, client);
             k < |client| ==> m.digest(client[k]) != m.digest(m.Image(client[k]))
    ensures var empty, absent := Proxied(m, Some(""), first, events), Proxied(m, None, first, events);
            var verify := if m.event == BINDING then VerifyBinding else VerifyStrip;
            && empty.mutated == absent.mutated
            && verify(empty.log) == Ok(empty.mutated)
            && verify(absent.log) == if absent.mutated then Ok(true) else Err(FileNotFoundError)
  {
    hide Run, ClientChunks, Plain, FirstChanged;
    LinesOfNothing();
    if m.event == BINDING {
      BindingLogFaithful(m, Some(""), first, events);
      BindingLogFaithful(m, None, first, events);
    } else {
      StripLogFaithful(m, Some(""), first, events);
      StripLogFaithful(m, None, first, events);
    }
  }
}

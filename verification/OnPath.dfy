/** What reaches the server over a whole run with one of the installed mutators, chunk by chunk. */
module OnPath {
  import opened Bytes
  import opened Extensions
  import opened ClientHelloFrame
  import opened ClientHelloStrip
  import opened ClientHelloForge
  import opened CaptureReader
  import opened CaptureProperties
  import SshKex
  import opened RecordStream
  import opened ProxyLog
  import opened Relay
  import opened Mutators

  // ---- forging

  /** `after` is `before` with the 1184 post-quantum bytes of its first share of `g` complemented: the first ones of an
      X25519MLKEM768 share, those after the 32 bytes of X25519 in an X25519Kyber768Draft00 share.  The X25519
      half, all other bytes and every located offset and length are as they were. */
  predicate PqHalfFlipped(before: bytes, after: bytes, g: int) {
    && |after| == |before|
    && FindShares(before).Ok? && FindShares(after) == FindShares(before)
    && First(FindShares(before).value, g).Some?
    && var share := First(FindShares(before).value, g).value;
    && var start := share.offset + if g == 0x6399 then 32 else 0;
    && start + 1184 <= share.offset + share.length <= |before|
    && forall i :: 0 <= i < |before| ==>
         after[i] == if start <= i < start + 1184 then Complement(before[i]) else before[i]
  }

  /** The chunk holds a share of `g`, one of the two hybrid groups, whose first such share is long enough to forge. */
  predicate Forgeable(d: bytes, g: int) {
    && (g == 0x11EC || g == 0x6399)
    && FindShares(d).Ok? && First(FindShares(d).value, g).Some?
    && First(FindShares(d).value, g).value.length >= if g == 0x6399 then 1216 else 1184
  }

  lemma ForgerChanges(g: int, group: string, digest: bytes -> string, d: bytes)
    ensures var m := TlsForger(g, group, digest);
            && (m.Changes(d) <==> Forgeable(d, g))
            && (m.Changes(d) ==> PqHalfFlipped(d, m.Image(d), g))
  {
    hide FindShares, First, ClientHelloExtensions, Flip;
    if Forge(d, g).Ok? {
      ForgeFraming(d, g);
      ShareInBounds(d, g);
    }
  }

  /** With the forging mutator installed, for every interleaving: the relay changes a chunk exactly when a handled chunk
      can be forged; it changes the first such chunk, in nothing but the post-quantum half of one share; and every
      other chunk passes verbatim. */
  lemma OnPathForge(g: int, group: string, digest: bytes -> string, log: Log, first: bytes, events: seq<Event>)
    ensures var m := TlsForger(g, group, digest);
            var s, client := Proxied(m, log, first, events), ClientChunks(m, first, events);
            var k := FirstChanged(m, client);
            && |s.upstream| == |client|
            && s.mutated == (exists i :: 0 <= i < |client| && Forgeable(client[i], g))
            && (forall i :: 0 <= i < k ==> !Forgeable(client[i], g))
            && (forall i :: 0 <= i < |client| && i != k ==> s.upstream[i] == client[i])
            && (s.mutated ==> k < |client| && PqHalfFlipped(client[k], s.upstream[k], g))
  {
    hide Run, Chunks, Handled, Forgeable, PqHalfFlipped, Mutator.Image, Mutator.Logged, Total;
    var m := TlsForger(g, group, digest);
    var client := ClientChunks(m, first, events);
    RelaySafety(m, log, first, events);
    forall i | 0 <= i < |client|
      ensures m.Changes(client[i]) <==> Forgeable(client[i], g)
      ensures m.Changes(client[i]) ==> PqHalfFlipped(client[i], m.Image(client[i]), g)
    {
      ForgerChanges(g, group, digest, client[i]);
    }
  }

  /** `after` is `before` with the 1158 bytes of its sntrup761 public key complemented, and the 32 bytes or more of the
      X25519 half after them, all other bytes and the located value as they were. */
  predicate SshPqHalfFlipped(before: bytes, after: bytes) {
    && |after| == |before|
    && SshKex.FindKexEcdhInit(before).Some? && SshKex.FindKexEcdhInit(after) == SshKex.FindKexEcdhInit(before)
    && var (offset, length) := SshKex.FindKexEcdhInit(before).value;
    && offset == 10 && offset + 1158 + 32 <= offset + length <= |before|
    && forall i :: 0 <= i < |before| ==>
         after[i] == if offset <= i < offset + 1158 then Complement(before[i]) else before[i]
  }

  /** The chunk starts with a complete KEX_ECDH_INIT packet whose public value holds 1158 and 32 bytes or more. */
  predicate SshForgeable(d: bytes) {
    && |d| >= 10 && 4 + U32(d, 0) <= |d| && d[5] == 30
    && 10 + U32(d, 6) + d[4] <= 4 + U32(d, 0) && U32(d, 6) >= 1190
  }

  lemma SshForgerChanges(group: string, digest: bytes -> string, d: bytes)
    ensures var m := SshForger(group, digest);
            && (m.Changes(d) <==> SshForgeable(d))
            && (m.Changes(d) ==> SshPqHalfFlipped(d, m.Image(d)))
  {
    hide Flip;
    SshKex.ForgeSshExact(d);
    if SshKex.ForgeSsh(d).Ok? {
      SshKex.ForgeSshFraming(d);
    }
  }

  /** The same for SSH, where a chunk can be forged if it starts with a KEX_ECDH_INIT whose public value is long
      enough. */
  lemma OnPathSshForge(group: string, digest: bytes -> string, log: Log, first: bytes, events: seq<Event>)
    ensures var m := SshForger(group, digest);
            var s, client := Proxied(m, log, first, events), ClientChunks(m, first, events);
            var k := FirstChanged(m, client);
            && |s.upstream| == |client|
            && s.mutated == (exists i :: 0 <= i < |client| && SshForgeable(client[i]))
            && (forall i :: 0 <= i < k ==> !SshForgeable(client[i]))
            && (forall i :: 0 <= i < |client| && i != k ==> s.upstream[i] == client[i])
            && (s.mutated ==> k < |client| && SshPqHalfFlipped(client[k], s.upstream[k]))
  {
    hide Run, Chunks, Handled, SshForgeable, SshPqHalfFlipped, Mutator.Image, Mutator.Logged, Total;
    var m := SshForger(group, digest);
    var client := ClientChunks(m, first, events);
    RelaySafety(m, log, first, events);
    forall i | 0 <= i < |client|
      ensures m.Changes(client[i]) <==> SshForgeable(client[i])
      ensures m.Changes(client[i]) ==> SshPqHalfFlipped(client[i], m.Image(client[i]))
    {
      SshForgerChanges(group, digest, client[i]);
    }
  }

  // ---- stripping

  /** `after` reads as `before` without `g`. */
  predicate ReadsWithout(before: bytes, after: bytes, g: int) {
    && ReadClientHello(before).Ok?
    && var view := ReadClientHello(before).value;
       ReadClientHello(after) == Ok(ClientView(WithoutId(view.groups, g), WithoutId(view.shares, g)))
  }

  lemma StripperChanges(g: int, group: string, digest: bytes -> string, d: bytes)
    ensures var m := TlsStripper(g, group, digest);
            && m.Image(d) == Stripped(d, g)
            && (m.Changes(d) <==> Names(d, g))
            && !Names(m.Image(d), g)
            && (AnyNames(Records(m.Image(d)), g) <==> AnyNames(Later(Records(d)), g))
            && (m.Changes(d) ==> ReadsWithout(d, m.Image(d), g))
  {
    hide Strip, Names, ReadClientHello, WithoutId, AnyNames, Records;
    StrippedNames(d, g);
    SurvivingRecords(d, g);
    if Strip(d, g).Ok? {
      StripSeenByWalkers(d, g);
    }
  }

  /** With the stripping mutator installed, for every interleaving: the relay changes a chunk exactly when one starts
      with a ClientHello naming `g`, and no chunk that starts with one reaches the server up to and including the
      changed chunk, which reads as before without `g`.  Records that follow the first one of a chunk are not looked
      at: up to and including the changed chunk, a record of a forwarded chunk names `g` exactly when one that was not
      the first of that chunk did.  Every other chunk passes verbatim, a second ClientHello included. */
  lemma OnPathStrip(g: int, group: string, digest: bytes -> string, log: Log, first: bytes, events: seq<Event>)
    ensures var m := TlsStripper(g, group, digest);
            var s, client := Proxied(m, log, first, events), ClientChunks(m, first, events);
            var k := FirstChanged(m, client);
            && |s.upstream| == |client|
            && s.mutated == (exists i :: 0 <= i < |client| && Names(client[i], g))
            && (forall i :: 0 <= i < |client| && i <= k ==>
                  && !Names(s.upstream[i], g)
                  && (AnyNames(Records(s.upstream[i]), g) <==> AnyNames(Later(Records(client[i])), g)))
            && (forall i :: 0 <= i < |client| && i != k ==> s.upstream[i] == client[i])
            && (s.mutated ==> k < |client| && Names(client[k], g) && ReadsWithout(client[k], s.upstream[k], g))
  {
    hide Run, Chunks, Handled, Names, AnyNames, Records, ReadsWithout, Mutator.Image, Mutator.Logged, Total;
    var m := TlsStripper(g, group, digest);
    var client := ClientChunks(m, first, events);
    RelaySafety(m, log, first, events);
    forall i | 0 <= i < |client|
      ensures m.Changes(client[i]) <==> Names(client[i], g)
      ensures m.Changes(client[i]) ==> ReadsWithout(client[i], m.Image(client[i]), g)
      ensures !Names(m.Image(client[i]), g)
      ensures AnyNames(Records(m.Image(client[i])), g) <==> AnyNames(Later(Records(client[i])), g)
    {
      StripperChanges(g, group, digest, client[i]);
    }
  }

  lemma SshStripperChanges(algorithm: string, digest: bytes -> string, d: bytes)
    ensures var m := SshStripper(algorithm, digest);
            && m.Image(d) == SshStripped(d, algorithm)
            && (m.Changes(d) <==> Lists(d, algorithm))
            && !Lists(m.Image(d), algorithm)
            && (!AnyLists(Packets(m.Image(d)), algorithm)
                <==> Lists(d, algorithm) || !AnyLists(Later(Packets(d)), algorithm))
  {
    hide SshKex.StripKexinit, Lists, AnyLists, Packets;
    SshStrippedLists(d, algorithm);
    SurvivingPackets(d, algorithm);
  }

  /** The same for SSH: up to and including the changed chunk, no chunk that starts with a KEXINIT listing the algorithm
      reaches the server; read as packets from its first byte on, such a chunk lists it nowhere exactly when its first
      packet did or no later one does; and every other chunk passes verbatim. */
  lemma OnPathSshStrip(algorithm: string, digest: bytes -> string, log: Log, first: bytes, events: seq<Event>)
    ensures var m := SshStripper(algorithm, digest);
            var s, client := Proxied(m, log, first, events), ClientChunks(m, first, events);
            var k := FirstChanged(m, client);
            && |s.upstream| == |client|
            && s.mutated == (exists i :: 0 <= i < |client| && Lists(client[i], algorithm))
            && (forall i :: 0 <= i < |client| && i <= k ==>
                  && !Lists(s.upstream[i], algorithm)
                  && (!AnyLists(Packets(s.upstream[i]), algorithm)
                      <==> Lists(client[i], algorithm) || !AnyLists(Later(Packets(client[i])), algorithm)))
            && (forall i :: 0 <= i < |client| && i != k ==> s.upstream[i] == client[i])
  {
    hide Run, Chunks, Handled, Lists, AnyLists, Packets, Mutator.Image, Mutator.Logged, Total;
    var m := SshStripper(algorithm, digest);
    var client := ClientChunks(m, first, events);
    RelaySafety(m, log, first, events);
    forall i | 0 <= i < |client|
      ensures m.Changes(client[i]) <==> Lists(client[i], algorithm)
      ensures !Lists(m.Image(client[i]), algorithm)
      ensures !AnyLists(Packets(m.Image(client[i])), algorithm)
              <==> Lists(client[i], algorithm) || !AnyLists(Later(Packets(client[i])), algorithm)
    {
      SshStripperChanges(algorithm, digest, client[i]);
    }
  }
}

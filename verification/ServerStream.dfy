/** What the server reads over a whole run with a stripping mutator: the stream of records or packets, whatever chunks
    it came in; and inputs at which a description of the relay or the strip fails. */
module ServerStream {
  import opened Bytes
  import opened Tlvs
  import opened Extensions
  import opened ClientHelloFrame
  import opened ClientHelloStrip
  import opened CaptureReader
  import opened CaptureProperties
  import opened CaptureStability
  import NameList
  import SshKex
  import opened RecordStream
  import opened ProxyLog
  import opened Relay
  import opened Mutators
  import opened OnPath

  // ---- the record stream the server reads

  /** The bytes of a direction, chunk boundaries forgotten. */
  function Joined(chunks: seq<bytes>): bytes {
    if chunks == [] then [] else chunks[0] + Joined(chunks[1..])
  }

  lemma {:induction false} JoinedConcat(a: seq<bytes>, b: seq<bytes>)
    ensures Joined(a + b) == Joined(a) + Joined(b)
  {
    if a == [] {
      assert a + b == b;
    } else {
      assert (a + b)[1..] == a[1..] + b;
      JoinedConcat(a[1..], b);
    }
  }

  lemma JoinedAround(chunks: seq<bytes>, k: nat, chunk: bytes)
    requires k < |chunks|
    ensures Joined(chunks[k := chunk]) == Joined(chunks[..k]) + (chunk + Joined(chunks[k + 1..]))
  {
    hide Joined;
    assert chunks[k := chunk] == chunks[..k] + ([chunk] + chunks[k + 1..]);
    JoinedConcat(chunks[..k], [chunk] + chunks[k + 1..]);
    JoinedCons(chunk, chunks[k + 1..]);
  }

  lemma JoinedCons(chunk: bytes, chunks: seq<bytes>)
    ensures Joined([chunk] + chunks) == chunk + Joined(chunks)
  {
    assert ([chunk] + chunks)[1..] == chunks;
  }

  lemma JoinedTwo(a: bytes, b: bytes)
    ensures Joined([a]) == a && Joined([a, b]) == a + b
  {
    assert Joined([a]) == a + Joined([]) && Joined([b]) == b + Joined([]);
    assert [a, b][1..] == [b];
  }

  /** Bytes after a complete first record do not change what stripping does. */
  lemma StrippedAppend(d: bytes, more: bytes, g: int)
    requires RecordSize(d).Some?
    ensures Stripped(d + more, g) == Stripped(d, g) + more
  {
    hide Stripped;
    var n := RecordSize(d).value;
    assert U16(d + more, 3) == U16(d, 3);
    assert (d + more)[..n] == d[..n] && (d + more)[n..] == d[n..] + more;
    StripFirst(d, g);
    StripFirst(d + more, g);
  }

  /** A chunk that starts at a record boundary: one record of the stream is stripped and all others stay. */
  lemma OneRecordStripped(before: bytes, chunk: bytes, after: bytes, g: int)
    requires Names(chunk, g)
    ensures var sent, r := Records(before + (chunk + after)), |Records(before)|;
            Remainder(before) == [] ==>
              && r < |sent| && Names(sent[r], g)
              && Records(before + (Stripped(chunk, g) + after)) == sent[r := Stripped(sent[r], g)]
  {
    hide Stripped, Meaning, AnyMentions, Records, Remainder, RecordSize;
    var d := chunk + after;
    MeaningOfFirst(chunk);
    StrippedAppend(chunk, after, g);
    RecordsConcat(before, d);
    RecordsConcat(before, Stripped(d, g));
    assert [] + d == d && [] + Stripped(d, g) == Stripped(d, g);
    StrippedRecords(d, g);
    FirstOfLonger(chunk, after);
    UpdateInside(Records(before), Records(d), Stripped(Records(d)[0], g));
  }

  lemma UpdateInside<T>(a: seq<T>, b: seq<T>, x: T)
    requires b != []
    ensures (a + b)[|a|] == b[0] && (a + b)[|a| := x] == a + ([x] + Later(b))
  {
  }

  lemma FirstOfLonger(d: bytes, more: bytes)
    requires RecordSize(d).Some?
    ensures Records(d + more) != [] && Records(d + more)[0] == d[..RecordSize(d).value]
  {
    assert U16(d + more, 3) == U16(d, 3);
    assert (d + more)[..RecordSize(d).value] == d[..RecordSize(d).value];
  }

  /** Stripping keeps the type and the version that a record starts with. */
  lemma StrippedHead(d: bytes, g: int)
    requires Names(d, g)
    ensures |d| >= 9 && |Stripped(d, g)| >= 9 && d[0] == TLS_HANDSHAKE && d[5] == TLS_CLIENT_HELLO
    ensures Stripped(d, g)[..3] == d[..3] && |Stripped(d, g)| < |d|
  {
    hide ClientHelloExtensions, Meaning, AnyMentions, RemoveAll, Strip, Frame.Prefix, FrameOf;
    var out := Stripped(d, g);
    StripAcceptance(d, g);
    StripMeaning(d, g);
    StripLengths(d, g);
    MeaningOfFirst(d);
    MeaningOfFirst(out);
    VersionOf(d);
    VersionOf(out);
  }

  lemma VersionOf(d: bytes)
    requires Located(d)
    ensures |d| >= 9 && d[0] == TLS_HANDSHAKE && d[5] == TLS_CLIENT_HELLO
    ensures d[..3] == [TLS_HANDSHAKE] + FrameOf(d).version
  {
    hide ClientHelloExtensions;
    var (start, end) := Bounds(d);
  }

  /** A record that names `g` cannot start one byte before another: its handshake message would be longer than it. */
  lemma NotOneByteBefore(x: byte, d: bytes, g: int)
    requires |d| >= 9 && d[5] == TLS_CLIENT_HELLO
    ensures !Names([x] + d, g)
  {
    var e := [x] + d;
    MeaningOfFirst(e);
    assert e[6] == d[5];
    assert U24(e, 6) >= 0x1_0000;
    if Located(e) {
      var (start, end) := Bounds(e);
    }
  }

  /** A chunk that starts inside a record: whatever that record is, the stream does not go on with it stripped.  Its
      length lies in bytes that the strip keeps. */
  lemma OutOfStep(rest: bytes, chunk: bytes, after: bytes, g: int)
    requires rest != [] && RecordSize(rest).None? && Names(chunk, g)
    ensures var sent, received := Records(rest + (chunk + after)), Records(rest + (Stripped(chunk, g) + after));
            !(sent != [] && Names(sent[0], g) && received != [] && received[0] == Stripped(sent[0], g))
  {
    hide Names, Stripped, Records;
    StrippedHead(chunk, g);
    var out := Stripped(chunk, g);
    var x, y := rest + (chunk + after), rest + (out + after);
    FirstRecord(x);
    FirstRecord(y);
    if |rest| == 1 {
      var d := chunk + after;
      assert x == [rest[0]] + d && d[5] == chunk[5];
      NotOneByteBefore(rest[0], d, g);
      NamesInFirst(x, g);
    } else {
      SameLength(rest, chunk + after, out + after);
      if Records(x) != [] && Names(Records(x)[0], g) {
        StrippedHead(Records(x)[0], g);
      }
    }
  }

  lemma FirstRecord(d: bytes)
    ensures Records(d) == [] <==> RecordSize(d).None?
    ensures RecordSize(d).Some? ==> Records(d)[0] == d[..RecordSize(d).value]
    ensures RecordSize(d).Some? ==> |Records(d)[0]| == 5 + U16(d, 3)
  {
  }

  lemma NamesInFirst(d: bytes, g: int)
    ensures RecordSize(d).Some? ==> (Names(d[..RecordSize(d).value], g) <==> Names(d, g))
  {
    hide Meaning, AnyMentions;
    MeaningOfFirst(d);
  }

  lemma SameLength(rest: bytes, a: bytes, b: bytes)
    requires |rest| >= 2 && |a| >= 3 && |b| >= 3 && a[..3] == b[..3]
    ensures U16(rest + a, 3) == U16(rest + b, 3)
  {
    assert forall i :: 0 <= i < 3 ==> a[i] == a[..3][i] == b[..3][i] == b[i];
    assert forall i :: 0 <= i < 5 ==> (rest + a)[i] == (rest + b)[i];
  }

  /** The stream goes on with that record stripped only if the chunk starts at a record boundary. */
  lemma OnlyAtBoundary(before: bytes, chunk: bytes, after: bytes, g: int)
    requires Remainder(before) != [] && Names(chunk, g)
    ensures var sent, received := Records(before + (chunk + after)), Records(before + (Stripped(chunk, g) + after));
            var r := |Records(before)|;
            !(r < |sent| && Names(sent[r], g) && received == sent[r := Stripped(sent[r], g)])
  {
    hide Names, Stripped, Records, Remainder;
    var rest := Remainder(before);
    var x, y := chunk + after, Stripped(chunk, g) + after;
    RecordsConcat(before, x);
    RecordsConcat(before, y);
    RemainderSize(before);
    OutOfStep(rest, chunk, after, g);
    var sent, received, r := Records(before + x), Records(before + y), |Records(before)|;
    if r < |sent| {
      assert sent[r] == Records(rest + x)[0];
    }
    if r < |received| {
      assert received[r] == Records(rest + y)[0];
    }
  }

  lemma RemainderSize(d: bytes)
    ensures RecordSize(Remainder(d)).None?
  {
  }

  /** The run as the server sees it, chunk boundaries forgotten.  Unless a chunk is changed, the server reads the
      records of the client.  If one is, it reads the records complete before it and then whatever the stripped bytes
      make. These are the records of the client with that one record stripped and every other one as it was if and
      only if the changed chunk starts where a record starts; and then no record names `g` exactly when that one was
      the only one. */
  lemma OnPathRecords(g: int, group: string, digest: bytes -> string, log: Log, first: bytes, events: seq<Event>)
    ensures var m := TlsStripper(g, group, digest);
            var s, client := Proxied(m, log, first, events), ClientChunks(m, first, events);
            var k := FirstChanged(m, client);
            var sent, received := Records(Joined(client)), Records(Joined(s.upstream));
            && (!s.mutated ==> received == sent)
            && (s.mutated ==>
                  && k < |client|
                  && var before, later := Joined(client[..k]), Joined(client[k + 1..]);
                  && var r := |Records(before)|;
                  && received == Records(before) + Records(Remainder(before) + (Stripped(client[k], g) + later))
                  && (Remainder(before) == []
                      <==> r < |sent| && Names(sent[r], g) && received == sent[r := Stripped(sent[r], g)])
                  && (Remainder(before) == [] ==>
                        (AnyNames(received, g) <==> exists i :: 0 <= i < |sent| && i != r && Names(sent[i], g))))
  {
    hide Run, Chunks, Handled, Names, Records, Joined, Remainder, Stripped, Mutator.Image, Mutator.Logged, Total;
    var m := TlsStripper(g, group, digest);
    var s, client := Proxied(m, log, first, events), ClientChunks(m, first, events);
    var k := FirstChanged(m, client);
    RelaySafety(m, log, first, events);
    if k < |client| {
      StripperChanges(g, group, digest, client[k]);
      JoinedAround(client, k, client[k]);
      JoinedAround(client, k, m.Image(client[k]));
      assert client[k := client[k]] == client;
      RunRecords(Joined(client[..k]), client[k], Joined(client[k + 1..]), g);
    }
  }

  lemma RunRecords(before: bytes, chunk: bytes, later: bytes, g: int)
    requires Names(chunk, g)
    ensures var sent, received := Records(before + (chunk + later)), Records(before + (Stripped(chunk, g) + later));
            var r := |Records(before)|;
            && received == Records(before) + Records(Remainder(before) + (Stripped(chunk, g) + later))
            && (Remainder(before) == []
                <==> r < |sent| && Names(sent[r], g) && received == sent[r := Stripped(sent[r], g)])
            && (Remainder(before) == [] ==>
                  (AnyNames(received, g) <==> exists i :: 0 <= i < |sent| && i != r && Names(sent[i], g)))
  {
    hide Names, Records, Remainder, Stripped;
    RecordsConcat(before, Stripped(chunk, g) + later);
    if Remainder(before) == [] {
      OneRecordStripped(before, chunk, later, g);
      var sent, received := Records(before + (chunk + later)), Records(before + (Stripped(chunk, g) + later));
      var r := |Records(before)|;
      StrippedNames(sent[r], g);
      assert forall i :: 0 <= i < |sent| && i != r ==> received[i] == sent[i];
    } else {
      OnlyAtBoundary(before, chunk, later, g);
    }
  }

  // ---- the packet stream the server reads

  lemma RunPackets(before: bytes, chunk: bytes, later: bytes, algorithm: string)
    requires Lists(chunk, algorithm)
    ensures var out := SshStripped(chunk, algorithm);
            var sent, received := SshPackets(before + (chunk + later)), SshPackets(before + (out + later));
            var r := |SshPackets(before)|;
            match AfterBanner(before)
            case None => received == SshPackets(out + later)
            case Some(packets) =>
              && received == SshPackets(before) + Packets(PacketRemainder(packets) + (out + later))
              && (PacketRemainder(packets) == [] ==>
                    && OnePacketStripped(sent, received, r, out, later, algorithm)
                    && (AnyLists(received, algorithm)
                        <==> AnyLists(sent[..r], algorithm) || AnyLists(Packets(later), algorithm)))
              && (PacketRemainder(packets) != [] && |chunk| <= RECEIVE_LIMIT ==>
                    !OnePacketStripped(sent, received, r, out, later, algorithm))
  {
    hide Lists, Packets, PacketRemainder, AfterBanner, SshStripped, AnyLists;
    var out := SshStripped(chunk, algorithm);
    AfterBannerConcat(before, chunk + later);
    AfterBannerConcat(before, out + later);
    if AfterBanner(before).Some? {
      var packets := AfterBanner(before).value;
      PacketsConcat(packets, chunk + later);
      PacketsConcat(packets, out + later);
      if PacketRemainder(packets) == [] {
        assert [] + (chunk + later) == chunk + later && [] + (out + later) == out + later;
        OnePacketLeft(chunk, later, algorithm);
        var sent, r := SshPackets(before + (chunk + later)), |SshPackets(before)|;
        assert sent[..r] == SshPackets(before) && sent[r] == Packets(chunk + later)[0];
        SshStrippedLists(chunk, algorithm);
        AnyListsAround(sent[..r], out, Packets(later), algorithm);
      } else if |chunk| <= RECEIVE_LIMIT {
        OnlyAtPacketBoundary(packets, chunk, later, algorithm);
      }
    }
  }

  /** Packet `r` of the client arrives stripped, as `out`, after the packets before it and before those of `later`. */
  predicate OnePacketStripped(
    sent: seq<bytes>, received: seq<bytes>, r: nat, out: bytes, later: bytes, algorithm: string)
  {
    && r < |sent| && Lists(sent[r], algorithm) && out == SshStripped(sent[r], algorithm)
    && received == sent[..r] + ([out] + Packets(later))
  }

  lemma OnlyAtPacketBoundary(packets: bytes, chunk: bytes, later: bytes, algorithm: string)
    requires PacketRemainder(packets) != [] && Lists(chunk, algorithm) && |chunk| <= RECEIVE_LIMIT
    ensures var out := SshStripped(chunk, algorithm);
            var sent, received := Packets(packets + (chunk + later)), Packets(packets + (out + later));
            !OnePacketStripped(sent, received, |Packets(packets)|, out, later, algorithm)
  {
    hide Lists, Packets, PacketRemainder, SshStripped;
    var out, rest := SshStripped(chunk, algorithm), PacketRemainder(packets);
    PacketsConcat(packets, chunk + later);
    PacketsConcat(packets, out + later);
    KexinitOutOfStep(rest, chunk, later, algorithm);
    var sent, received, r := Packets(packets + (chunk + later)), Packets(packets + (out + later)), |Packets(packets)|;
    if r < |sent| {
      assert sent[r] == Packets(rest + (chunk + later))[0];
    }
    if r < |received| {
      assert received[r] == Packets(rest + (out + later))[0];
    }
    assert (sent[..r] + ([out] + Packets(later)))[r] == out;
  }

  /** A chunk that starts inside a packet: the stream does not go on with that packet stripped.  Four bytes of the
      packet fix its length; fewer would repeat through the stripped packet, whose lengths are too small for that. */
  lemma KexinitOutOfStep(rest: bytes, chunk: bytes, later: bytes, algorithm: string)
    requires rest != [] && Lists(chunk, algorithm) && |chunk| <= RECEIVE_LIMIT
    ensures var out := SshStripped(chunk, algorithm);
            var sent, received := Packets(rest + (chunk + later)), Packets(rest + (out + later));
            !(&& sent != [] && Lists(sent[0], algorithm) && out == SshStripped(sent[0], algorithm)
              && received != [] && received[0] == out)
  {
    hide Lists, Packets, SshStripped;
    var out := SshStripped(chunk, algorithm);
    var x, y := rest + (chunk + later), rest + (out + later);
    PacketsFirst(x);
    PacketsFirst(y);
    StrippedFields(chunk, algorithm);
    if |rest| >= 4 {
      assert U32(x, 0) == U32(rest, 0) == U32(y, 0);
      if Packets(x) != [] {
        SshStrippedLists(Packets(x)[0], algorithm);
      }
    } else {
      NotRepeating(out, |rest|);
      var i :| |rest| <= i < |out| && out[i] != out[i - |rest|];
      assert y[i] == (out + later)[i - |rest|] == out[i - |rest|];
      if Packets(y) != [] && i < |Packets(y)[0]| {
        assert Packets(y)[0][i] == y[i];
      }
    }
  }

  lemma StrippedFields(chunk: bytes, algorithm: string)
    requires Lists(chunk, algorithm)
    ensures var out := SshStripped(chunk, algorithm);
            && 26 <= |out| <= |chunk| && out[5] == SshKex.SSH_MSG_KEXINIT
            && 4 + U32(out, 0) == |out| && 26 + U32(out, 22) <= |out|
  {
    hide SshKex.StripKexinit, SshKex.KexinitOf, NameList.LeavesOneEmpty, NameList.Without;
    SshStrippedLists(chunk, algorithm);
    SshKex.SshStripRaises(chunk, algorithm);
    SshKex.SshStripLaw(chunk, algorithm);
  }

  lemma NotRepeating(out: bytes, q: nat)
    requires 26 <= |out| <= RECEIVE_LIMIT && out[5] == SshKex.SSH_MSG_KEXINIT
    requires 4 + U32(out, 0) == |out| && 26 + U32(out, 22) <= |out| && 1 <= q <= 3
    ensures exists i :: q <= i < |out| && out[i] != out[i - q]
  {
    assert out[0] == 0 && out[1] == 0;
    if q == 1 {
      assert out[2] != out[1] || out[3] != out[2];
    } else if q == 2 {
      assert out[3] != out[1] || out[5] != out[3];
    } else {
      assert out[23] == 0;
      assert out[5] != out[2] || out[8] != out[5] || out[11] != out[8] || out[14] != out[11]
             || out[17] != out[14] || out[20] != out[17] || out[23] != out[20];
    }
  }

  lemma AnyListsAround(a: seq<bytes>, packet: bytes, b: seq<bytes>, algorithm: string)
    requires !Lists(packet, algorithm)
    ensures AnyLists(a + ([packet] + b), algorithm) <==> AnyLists(a, algorithm) || AnyLists(b, algorithm)
  {
    hide Lists;
    var whole := a + ([packet] + b);
    assert forall i :: 0 <= i < |a| ==> whole[i] == a[i];
    assert whole[|a|] == packet;
    assert forall i :: 0 <= i < |b| ==> whole[|a| + 1 + i] == b[i];
    if AnyLists(whole, algorithm) {
      var i :| 0 <= i < |whole| && Lists(whole[i], algorithm);
      assert i < |a| || whole[i] == b[i - |a| - 1];
    }
  }

  /** A changed chunk at a packet boundary: its first packet is stripped, its others are gone, later ones follow. */
  lemma OnePacketLeft(chunk: bytes, later: bytes, algorithm: string)
    requires Lists(chunk, algorithm)
    ensures var out, sent := SshStripped(chunk, algorithm), Packets(chunk + later);
            && sent != [] && Lists(sent[0], algorithm) && out == SshStripped(sent[0], algorithm)
            && Packets(out + later) == [out] + Packets(later)
  {
    hide Lists, Packets, SshStripped, PacketRemainder;
    var out := SshStripped(chunk, algorithm);
    ListsInFirst(chunk, algorithm);
    PacketsConcat(chunk, later);
    StrippedOfFirst(chunk, algorithm);
    StrippedIsWhole(chunk, algorithm);
    PacketsConcat(out, later);
    assert [] + later == later;
  }

  lemma StrippedIsWhole(chunk: bytes, algorithm: string)
    requires Lists(chunk, algorithm)
    ensures var out := SshStripped(chunk, algorithm);
            Packets(out) == [out] && PacketRemainder(out) == []
  {
    hide SshKex.StripKexinit, SshKex.KexinitBounds, SshKex.KexinitOf, NameList.LeavesOneEmpty, NameList.Without;
    SshStrippedPackets(chunk, algorithm);
    SshKex.SshStripRaises(chunk, algorithm);
    SshKex.SshStripLaw(chunk, algorithm);
    SshStrippedLists(chunk, algorithm);
    var out := SshStripped(chunk, algorithm);
    assert out[|out|..] == [];
    assert PacketRemainder([]) == [];
  }

  /** Only the first packet of a changed chunk matters. */
  lemma StrippedOfFirst(chunk: bytes, algorithm: string)
    requires Lists(chunk, algorithm)
    ensures Packets(chunk) != [] && SshStripped(Packets(chunk)[0], algorithm) == SshStripped(chunk, algorithm)
  {
    hide SshKex.StripKexinit, SshKex.KexinitBounds, SshKex.KexinitOf, SshKex.Replacement, SshKex.Kexinit.Print,
         SshKex.Kexinit.Valid, SshKex.IsAscii, SshKex.Chars, NameList.Names, Packets, PacketSize;
    ListsInFirst(chunk, algorithm);
    PacketsFirst(chunk);
    var packet := Packets(chunk)[0];
    SamePacket(chunk);
    SshKex.StripKexinitPrints(chunk, algorithm);
    SshKex.StripKexinitPrints(packet, algorithm);
    SameReplacement(chunk, packet, algorithm);
  }

  lemma SameReplacement(a: bytes, b: bytes, algorithm: string)
    requires SshKex.KexinitAlgorithms(a).Ok? && SshKex.KexinitAlgorithms(b).Ok?
    requires SshKex.KexinitOf(a).names == SshKex.KexinitOf(b).names
    ensures SshKex.Replacement(a, algorithm) == SshKex.Replacement(b, algorithm)
  {
    hide SshKex.KexinitBounds, SshKex.KexinitOf, SshKex.Chars, SshKex.Octets, NameList.Join, NameList.Without;
  }

  lemma SamePacket(chunk: bytes)
    requires SshKex.KexinitBounds(chunk).Some? && PacketSize(chunk).Some?
    ensures var packet := chunk[..PacketSize(chunk).value];
            && SshKex.KexinitBounds(packet).Some?
            && SshKex.KexinitOf(packet) == SshKex.KexinitOf(chunk).(tail := [])
  {
    var packet := chunk[..PacketSize(chunk).value];
    assert forall i :: 0 <= i < |packet| ==> packet[i] == chunk[i];
    assert SshKex.KexinitBounds(packet) == SshKex.KexinitBounds(chunk);
  }

  /** The same for SSH, the banner forgotten too.  Unless a chunk is changed, the server reads the packets of the
      client. If one is, after the banner, it reads the packets complete before it and then whatever the stripped
      bytes make. For a chunk of one read these are the packets before it, its first packet stripped, and the packets
      of the later chunks if and only if it starts where a packet starts; and then no packet lists the algorithm
      exactly when none before it and none in a later chunk does. */
  lemma OnPathPackets(algorithm: string, digest: bytes -> string, log: Log, first: bytes, events: seq<Event>)
    ensures var m := SshStripper(algorithm, digest);
            var s, client := Proxied(m, log, first, events), ClientChunks(m, first, events);
            var k := FirstChanged(m, client);
            var sent, received := SshPackets(Joined(client)), SshPackets(Joined(s.upstream));
            && (!s.mutated ==> received == sent)
            && (s.mutated ==>
                  && k < |client|
                  && var before, later := Joined(client[..k]), Joined(client[k + 1..]);
                  && var out, r := SshStripped(client[k], algorithm), |SshPackets(before)|;
                  match AfterBanner(before)
                  case None => received == SshPackets(out + later)
                  case Some(packets) =>
                    && received == SshPackets(before) + Packets(PacketRemainder(packets) + (out + later))
                    && (PacketRemainder(packets) == [] ==>
                          && OnePacketStripped(sent, received, r, out, later, algorithm)
                          && (AnyLists(received, algorithm)
                              <==> AnyLists(sent[..r], algorithm) || AnyLists(Packets(later), algorithm)))
                    && (PacketRemainder(packets) != [] && |client[k]| <= RECEIVE_LIMIT ==>
                          !OnePacketStripped(sent, received, r, out, later, algorithm)))
  {
    hide Run, Chunks, Handled, Lists, Packets, PacketRemainder, AfterBanner, SshPackets, Joined, SshStripped, AnyLists,
         OnePacketStripped, Mutator.Image, Mutator.Logged, Total;
    var m := SshStripper(algorithm, digest);
    var s, client := Proxied(m, log, first, events), ClientChunks(m, first, events);
    var k := FirstChanged(m, client);
    RelaySafety(m, log, first, events);
    if k < |client| {
      SshStripperChanges(algorithm, digest, client[k]);
      JoinedAround(client, k, client[k]);
      JoinedAround(client, k, m.Image(client[k]));
      assert client[k := client[k]] == client;
      RunPackets(Joined(client[..k]), client[k], Joined(client[k + 1..]), algorithm);
    }
  }

  // ---- inputs at which the descriptions fail

  /** A small ClientHello that supports exactly the group `g`, followed by `tail`. */
  function SampleHello(g: u16, tail: bytes): Frame {
    Frame([0x03, 0x03], seq(34, _ => 0), [], [], [], B2(TLS_SUPPORTED_GROUPS) + B2(4) + B2(2) + B2(g), [], [], tail)
  }

  lemma SampleReads(g: u16, tail: bytes)
    ensures var f := SampleHello(g, tail);
            && f.Valid() && Located(f.Print()) && FrameOf(f.Print()) == f
            && Names(f.Print(), g) && MarkerAt(f.Print(), 0) && ReadClientHello(f.Print()) == Ok(ClientView([g], []))
  {
    hide B2, ClientHelloExtensions, FrameOf, ReadClientHello, Frame.Print, Meaning;
    var f, xs := SampleHello(g, tail), [Groups([g])];
    SampleBlock(g);
    MeaningOfRewrite(f, xs);
    assert xs[0] == Groups([g]) && Mentions(xs[0], g);
    MarkerOfVersion(f.Print());
    WalkersAgree(f.Print());
    NoSharesInSample(g);
  }

  lemma SampleBlock(g: u16)
    ensures AllFit([Groups([g])])
    ensures PrintTlvs(EncodeAll([Groups([g])])) == B2(TLS_SUPPORTED_GROUPS) + B2(4) + B2(2) + B2(g)
  {
    hide B2;
    var t := Encode(Groups([g]));
    assert PrintIds([g]) == B2(g) + PrintIds([g][1..]);
    assert EncodeAll([Groups([g])]) == [t];
    PrintFirst([t]);
    PrintNothing();
  }

  lemma NoSharesInSample(g: u16)
    ensures LastGroups([Groups([g])], []) == [g] && AllShares([Groups([g])]) == [] && Tags([]) == []
  {
    assert [Groups([g])][1..] == [];
    assert LastGroups([], [g]) == [g];
  }

  /** Two ClientHellos in one chunk, both naming `g`: the relay reports a mutation, and the capture of what it sent
      still shows a ClientHello with `g`. */
  lemma SecondHelloSurvives(g: u16, group: string, digest: bytes -> string, log: Log)
    ensures SampleHello(g, []).Valid() && SampleHello(g, SampleHello(g, []).Print()).Valid()
    ensures var second := SampleHello(g, []).Print();
            var s := Proxied(TlsStripper(g, group, digest), log, SampleHello(g, second).Print(), []);
            && s.mutated && |s.upstream| == 1 && !Names(s.upstream[0], g)
            && |Records(s.upstream[0])| == 2 && Records(s.upstream[0])[1] == second
            && ClientView([g], []) in Summarize(s.upstream[0]).clientHellos
  {
    hide Run, Records, Frame.Print, Names, ReadClientHello, Summarize, FrameOf, ClientHelloExtensions, B2, Stripped;
    var m, f := TlsStripper(g, group, digest), SampleHello(g, []);
    SampleReads(g, []);
    var second := f.Print();
    SampleReads(g, second);
    var d := SampleHello(g, second).Print();
    TlsStripperFacts(g, group, digest);
    OneChunk(m, log, d);
    StripperChanges(g, group, digest, d);
    TwoRecords(f, SampleHello(g, second));
    StrippedRecords(d, g);
    var out := Stripped(d, g);
    var head := Stripped(d[..RecordSize(d).value], g);
    StripFirst(d, g);
    assert out == head + second + [];
    MarkerOfVersion(second);
    RecordInCapture(head, second, []);
  }

  lemma TwoRecords(last: Frame, f: Frame)
    requires last.Valid() && last.tail == [] && f.Valid() && f.tail == last.Print()
    ensures RecordSize(f.Print()).Some? && f.Print()[RecordSize(f.Print()).value..] == last.Print()
    ensures |Records(f.Print())| == 2 && Records(f.Print())[1] == last.Print()
  {
    hide Frame.Print;
    var d, second := f.Print(), last.Print();
    PrintTail(f);
    PrintTail(last);
    assert d[RecordSize(d).value..] == second && second[..|second|] == second && second[|second|..] == [];
    assert Records(second) == [second] + Records([]) == [second];
  }

  lemma OneChunk(m: Mutator, log: Log, d: bytes)
    requires d != [] && !m.Raises(d)
    ensures var s := Proxied(m, log, d, []);
            s.upstream == [m.Image(d)] && s.mutated == m.Changes(d)
  {
    SessionOfFirst(m, log, d);
  }

  /** A run whose second payload is the one rewritten, although the relay is described as changing the first one only.
      */
  lemma LaterPayloadRewritten(g: u16, group: string, digest: bytes -> string, log: Log)
    ensures SampleHello(g, []).Valid()
    ensures var hello := SampleHello(g, []).Print();
            var m := TlsStripper(g, group, digest);
            var s := Proxied(m, log, [0], [Event(ClientSide, hello)]);
            s.upstream == [[0], Stripped(hello, g)] && Stripped(hello, g) != hello
  {
    hide Run, Frame.Print, Stripped, SampleHello, Names;
    SampleReads(g, []);
    var m, hello := TlsStripper(g, group, digest), SampleHello(g, []).Print();
    StripperChanges(g, group, digest, hello);
    StripperChanges(g, group, digest, [0]);
    StripFirst([0], g);
    TlsStripperFacts(g, group, digest);
    TwoChunks(m, log, [0], hello);
  }

  lemma TwoChunks(m: Mutator, log: Log, a: bytes, b: bytes)
    requires a != [] && b != [] && m.Catches() && !m.Changes(a)
    ensures var s := Proxied(m, log, a, [Event(ClientSide, b)]);
            s.upstream == [a, m.Image(b)] && s.mutated == m.Changes(b)
  {
    hide Mutator.Image, Mutator.Logged;
    var e, f := Event(ClientSide, a), Event(ClientSide, b);
    var s := Step(m, Initial(log), e);
    var s' := Step(m, s, f);
    assert Session(a, [f]) == [e, f] && [e, f][1..] == [f] && [f][1..] == [];
    assert Run(m, s', []) == s';
    assert Run(m, s, [f]) == Run(m, s', [f][1..]);
    assert Run(m, Initial(log), [e, f]) == Run(m, s, [e, f][1..]);
  }

  /** A ClientHello in a chunk of its own that continues a record begun before it: the client sent one record, and the
      stripped rest is too short to complete it. */
  lemma HelloInsideRecord(g: u16, group: string, digest: bytes -> string, log: Log)
    ensures SampleHello(g, []).Valid() && |SampleHello(g, []).Print()| < 0x1_0000
    ensures var hello := SampleHello(g, []).Print();
            var header := [0x17, 0x03, 0x03] + B2(|hello|);
            var s := Proxied(TlsStripper(g, group, digest), log, header, [Event(ClientSide, hello)]);
            && s.upstream == [header, Stripped(hello, g)] && s.mutated
            && Records(header + hello) == [header + hello] && Records(Joined(s.upstream)) == []
  {
    hide Run, Frame.Print, Stripped, Names, Records, FrameOf, ClientHelloExtensions, Frame.Valid, B2;
    SampleReads(g, []);
    HelloSize(g);
    var m, hello := TlsStripper(g, group, digest), SampleHello(g, []).Print();
    var header: bytes := [0x17, 0x03, 0x03] + B2(|hello|);
    var out := Stripped(hello, g);
    StripperChanges(g, group, digest, hello);
    StripperChanges(g, group, digest, header);
    TlsStripperFacts(g, group, digest);
    StrippedHead(hello, g);
    HeaderPasses(header, g);
    TwoChunks(m, log, header, hello);
    JoinedTwo(header, out);
    AnnouncedRecord(|hello|, hello);
    AnnouncedRecord(|hello|, out);
  }

  lemma HelloSize(g: u16)
    ensures SampleHello(g, []).Valid() && 0 < |SampleHello(g, []).Print()| < 0x1_0000
  {
    hide Frame.Print;
    HeadFields(SampleHello(g, []));
  }

  lemma HeaderPasses(header: bytes, g: int)
    requires |header| == 5
    ensures !Names(header, g)
  {
  }

  lemma AnnouncedRecord(n: nat, d: bytes)
    requires n < 0x1_0000 && |d| <= n
    ensures var whole := [0x17, 0x03, 0x03] + B2(n) + d;
            Records(whole) == if |d| == n then [whole] else []
  {
    hide B2;
    var whole: bytes := [0x17, 0x03, 0x03] + B2(n) + d;
    assert whole[3] == B2(n)[0] && whole[4] == B2(n)[1];
    assert U16(whole, 3) == U16(B2(n), 0);
    assert whole[..|whole|] == whole && whole[|whole|..] == [] && Records([]) == [];
  }

  /** A KEXINIT packet that lists nothing but `name`. */
  function SampleKexinit(name: string): SshKex.Kexinit
    requires SshKex.IsAsciiText(name)
  {
    SshKex.Kexinit([SshKex.SSH_MSG_KEXINIT] + seq(16, _ => 0), SshKex.Octets(name), [], [], [])
  }

  lemma SampleLists(name: string)
    requires SshKex.IsAsciiText(name) && 0 < |name| < 1000 && ',' !in name
    ensures SampleKexinit(name).Valid() && |SampleKexinit(name).Print()| == 26 + |name|
    ensures Lists(SampleKexinit(name).Print(), name)
  {
    hide SshKex.Kexinit.Print, SshKex.KexinitBounds, SshKex.KexinitOf, SshKex.Chars;
    var k := SampleKexinit(name);
    SshKex.CharsAndOctets([], name);
    SshKex.KexinitFields(k);
    SshKex.AlgorithmsOfPrint(k);
    NameList.SplitWord(name);
  }

  lemma OnePacket(k: SshKex.Kexinit)
    requires k.Valid() && k.tail == []
    ensures Packets(k.Print()) == [k.Print()] && |k.Print()| == 4 + k.Size()
  {
    hide SshKex.Kexinit.Print;
    SshKex.KexinitFields(k);
    var packet := k.Print();
    assert packet[..|packet|] == packet && packet[|packet|..] == [];
  }

  /** A version banner and a KEXINIT in one chunk: the relay reports no mutation, and the server reads the KEXINIT
      with the algorithm that the relay is there to remove. */
  lemma CoalescedKexinitSurvives(line: bytes, name: string, digest: bytes -> string, log: Log)
    requires SshKex.IsAsciiText(name) && 0 < |name| < 1000 && ',' !in name
    requires 0 < |line| < 255 && line[0] == 0x53 && LINE_FEED !in line
    ensures SampleKexinit(name).Valid() && Lists(SampleKexinit(name).Print(), name)
    ensures var packet := SampleKexinit(name).Print();
            var d := line + [LINE_FEED] + packet;
            var s := Proxied(SshStripper(name, digest), log, d, []);
            && s.upstream == [d] && !s.mutated
            && SshPackets(Joined(s.upstream)) == [packet] && AnyLists(SshPackets(Joined(s.upstream)), name)
  {
    hide Run, Packets, Lists, SshStripped, SampleKexinit, SshKex.Kexinit.Print, SshKex.Kexinit.Valid, AfterBanner;
    SampleLists(name);
    var packet := SampleKexinit(name).Print();
    var d := line + [LINE_FEED] + packet;
    BannerPasses(d, name);
    SshStripperChanges(name, digest, d);
    SshStripperFacts(name, digest);
    OneChunk(SshStripper(name, digest), log, d);
    AfterBannerOfLine(line, packet);
    SampleTail(name);
    OnePacket(SampleKexinit(name));
    JoinedTwo(d, []);
    assert [packet][0] == packet;
  }

  lemma SampleTail(name: string)
    requires SshKex.IsAsciiText(name)
    ensures SampleKexinit(name).tail == []
  {
  }

  /** A KEXINIT in a chunk of its own that continues a packet begun before it: the client sent one packet, and the
      stripped rest is too short to complete it. */
  lemma KexinitInsidePacket(name: string, digest: bytes -> string, log: Log)
    requires SshKex.IsAsciiText(name) && 0 < |name| < 1000 && ',' !in name
    ensures SampleKexinit(name).Valid() && |SampleKexinit(name).Print()| < 0x1_0000
    ensures var packet := SampleKexinit(name).Print();
            var opening := [0x53, LINE_FEED] + B4(|packet|);
            var s := Proxied(SshStripper(name, digest), log, opening, [Event(ClientSide, packet)]);
            && s.mutated
            && SshPackets(opening + packet) == [B4(|packet|) + packet] && SshPackets(Joined(s.upstream)) == []
  {
    hide Run, SshPackets, Packets, Lists, SshStripped, SampleKexinit, SshKex.Kexinit.Print, SshKex.Kexinit.Valid, B4,
         Joined, Session, Mutator.Image, PacketSize, AnyLists;
    SampleLists(name);
    var m, packet := SshStripper(name, digest), SampleKexinit(name).Print();
    var opening := [0x53, LINE_FEED] + B4(|packet|);
    var out := SshStripped(packet, name);
    BannerPasses(opening, name);
    SshStripperChanges(name, digest, opening);
    SshStripperChanges(name, digest, packet);
    SshStripperFacts(name, digest);
    SshStrippedLists(packet, name);
    TwoChunks(m, log, opening, packet);
    JoinedTwo(opening, out);
    AnnouncedSize(|packet|, packet);
    AnnouncedSize(|packet|, out);
  }

  lemma AnnouncedSize(n: nat, d: bytes)
    requires n < 0x1_0000 && |d| <= n
    ensures SshPackets([0x53, LINE_FEED] + B4(n) + d) == if |d| == n then [B4(n) + d] else []
  {
    hide B4, AfterBanner;
    var whole := B4(n) + d;
    assert [0x53, LINE_FEED] + B4(n) + d == [0x53] + [LINE_FEED] + whole;
    AfterBannerOfLine([0x53], whole);
    assert U32(whole, 0) == U32(B4(n), 0);
    assert whole[..|whole|] == whole && whole[|whole|..] == [] && Packets([]) == [];
  }
}

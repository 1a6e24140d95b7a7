/** What the summary of a capture lists: exactly the hellos that are printed in its bytes, in the order they stand
    there. */
module CaptureContents {
  import opened Bytes
  import opened Tlvs
  import opened ClientHelloFrame
  import opened ClientHelloStrip
  import opened CaptureReader
  import opened CaptureStability
  import opened ServerHelloFormat

  /** The bytes start with a ServerHello as section 4.1.3 of RFC 8446 lays it out, in a record of version 3.1 or 3.3.
      It is a retry request if its random is the SHA-256 of "HelloRetryRequest", and its group is that of the last
      key_share. */
  ghost predicate PrintsServerHello(d: bytes, view: ServerView) {
    exists f: ServerFrame, ts: seq<Tlv> ::
      && f.Valid() && f.Print() == d && f.block == PrintTlvs(ts) && Readable(ts)
      && (f.header == [0x16, 0x03, 0x01] || f.header == [0x16, 0x03, 0x03])
      && view.group == LastGroup(ts)
      && (view.isHrr <==> f.random == [
            0xcf, 0x21, 0xad, 0x74, 0xe5, 0x9a, 0x61, 0x11, 0xbe, 0x1d, 0x8c, 0x02, 0x1e, 0x65, 0xb8, 0x91,
            0xc2, 0xa2, 0x11, 0x16, 0x7a, 0xbb, 0x8c, 0x5e, 0x07, 0x9e, 0x09, 0xe2, 0xc8, 0xa8, 0x33, 0x9c])
  }

  /** The bytes start with a ClientHello in a record of version 3.1 or 3.3, and it reads as `view`. */
  ghost predicate PrintsClientHello(d: bytes, view: ClientView) {
    exists f: Frame ::
      && f.Valid() && f.Print() == d && (f.version == [0x03, 0x01] || f.version == [0x03, 0x03])
      && ReadClientHello(d) == Ok(view)
  }

  lemma ServerHelloAtIsPrinted(capture: bytes, i: nat, view: ServerView)
    requires i <= |capture|
    ensures HelloAt(capture, i) == Server(view) <==> PrintsServerHello(capture[i..], view)
  {
    hide ReadServerHello, ReadClientHello, ServerFrame.Print, ServerFrame.Valid, LastGroup, Readable;
    var d := capture[i..];
    if HelloAt(capture, i) == Server(view) {
      var f, ts := ServerHelloIsPrinted(d);
      ServerHelloReadsBack(f, ts);
      HeaderOfServer(f);
      assert f.header == [d[0], d[1], d[2]];
    }
    if PrintsServerHello(d, view) {
      var f: ServerFrame, ts: seq<Tlv> :|
        && f.Valid() && f.Print() == d && f.block == PrintTlvs(ts) && Readable(ts)
        && (f.header == [0x16, 0x03, 0x01] || f.header == [0x16, 0x03, 0x03])
        && view.group == LastGroup(ts) && (view.isHrr <==> f.random == HRR_RANDOM);
      ServerHelloReadsBack(f, ts);
      HeaderOfServer(f);
      assert d[0] == f.header[0] && d[1] == f.header[1] && d[2] == f.header[2];
    }
  }

  lemma HeaderOfServer(f: ServerFrame)
    requires f.Valid()
    ensures |f.Print()| >= 49 && f.Print()[..3] == f.header && f.Print()[5] == 0x02
  {
    hide B2;
    HeadOfServer(f);
    assert f.Print()[..3] == f.Head()[..3] == f.header;
  }

  lemma ClientHelloAtIsPrinted(capture: bytes, i: nat, view: ClientView)
    requires i <= |capture|
    ensures HelloAt(capture, i) == Client(view) <==> PrintsClientHello(capture[i..], view)
  {
    hide ReadServerHello, ExtensionTlvs, ReadRest, Frame.Print, Frame.Valid, ClientHelloExtensions, FrameOf;
    var d := capture[i..];
    if HelloAt(capture, i) == Client(view) {
      LocatedIfRead(d);
      PrintFrameOf(d);
      MarkerOfVersion(d);
      assert MarkerAt(d, 0);
    }
    if PrintsClientHello(d, view) {
      var f: Frame :|
        && f.Valid() && f.Print() == d && (f.version == [0x03, 0x01] || f.version == [0x03, 0x03])
        && ReadClientHello(d) == Ok(view);
      FrameOfPrint(f);
      MarkerOfVersion(d);
      assert MarkerAt(capture, i);
    }
  }

  lemma LocatedIfRead(d: bytes)
    requires ReadClientHello(d).Ok?
    ensures Located(d)
  {
  }

  predicate Increasing(offsets: seq<nat>) {
    forall i, j :: 0 <= i < j < |offsets| ==> offsets[i] < offsets[j]
  }

  /** The offsets from `from` up to `end` at which something stands, in order, and what stands there. */
  predicate Listed<V(==)>(from: nat, end: nat, offsets: seq<nat>, views: seq<V>, at: nat -> Option<V>) {
    && |offsets| == |views| && Increasing(offsets)
    && (forall j :: 0 <= j < |views| ==> from <= offsets[j] < end && at(offsets[j]) == Some(views[j]))
    && (forall i :: from <= i < end && at(i).Some? ==> i in offsets)
  }

  lemma ListedStep<V>(from: nat, end: nat, offsets: seq<nat>, views: seq<V>, at: nat -> Option<V>)
    requires from < end && Listed(from + 1, end, offsets, views, at)
    ensures at(from).None? ==> Listed(from, end, offsets, views, at)
    ensures at(from).Some? ==> Listed(from, end, [from] + offsets, [at(from).value] + views, at)
  {
    assert forall i :: i in offsets ==> i in [from] + offsets;
  }

  function ServerAt(capture: bytes): nat -> Option<ServerView> {
    (i: nat) => if i <= |capture| && HelloAt(capture, i).Server? then Some(HelloAt(capture, i).server) else None
  }

  function ClientAt(capture: bytes): nat -> Option<ClientView> {
    (i: nat) => if i <= |capture| && HelloAt(capture, i).Client? then Some(HelloAt(capture, i).client) else None
  }

  lemma {:induction false} ListedFrom(capture: bytes, i: nat) returns (clients: seq<nat>, servers: seq<nat>)
    requires i <= |capture|
    ensures Listed(i, |capture|, clients, HellosFrom(capture, i).clientHellos, ClientAt(capture))
    ensures Listed(i, |capture|, servers, HellosFrom(capture, i).serverHellos, ServerAt(capture))
    decreases |capture| - i
  {
    hide HelloAt, Listed;
    if i == |capture| {
      NothingListed(capture);
      return [], [];
    }
    clients, servers := ListedFrom(capture, i + 1);
    var found, rest := HelloAt(capture, i), HellosFrom(capture, i + 1);
    ListedStep(i, |capture|, clients, rest.clientHellos, ClientAt(capture));
    ListedStep(i, |capture|, servers, rest.serverHellos, ServerAt(capture));
    assert [] + rest.clientHellos == rest.clientHellos && [] + rest.serverHellos == rest.serverHellos;
    if found.Client? {
      clients := [i] + clients;
    } else if found.Server? {
      servers := [i] + servers;
    }
  }

  lemma NothingListed(capture: bytes)
    ensures Listed(|capture|, |capture|, [], [], ClientAt(capture))
    ensures Listed(|capture|, |capture|, [], [], ServerAt(capture))
  {
  }

  /** The summary lists the ClientHellos and the ServerHellos printed in the capture, retry requests included: each at
      its offset, in order, and no other. */
  lemma SummaryExact(capture: bytes) returns (clients: seq<nat>, servers: seq<nat>)
    ensures var s := Summarize(capture);
            && |clients| == |s.clientHellos| && Increasing(clients)
            && (forall j :: 0 <= j < |clients| ==>
                  clients[j] < |capture| && PrintsClientHello(capture[clients[j]..], s.clientHellos[j]))
            && (forall i, view :: 0 <= i < |capture| && PrintsClientHello(capture[i..], view) ==> i in clients)
    ensures var s := Summarize(capture);
            && |servers| == |s.serverHellos| && Increasing(servers)
            && (forall j :: 0 <= j < |servers| ==>
                  servers[j] < |capture| && PrintsServerHello(capture[servers[j]..], s.serverHellos[j]))
            && (forall i, view :: 0 <= i < |capture| && PrintsServerHello(capture[i..], view) ==> i in servers)
  {
    hide HelloAt, HellosFrom, PrintsClientHello, PrintsServerHello, Increasing;
    clients, servers := ListedFrom(capture, 0);
    var s := Summarize(capture);
    forall j | 0 <= j < |clients|
      ensures PrintsClientHello(capture[clients[j]..], s.clientHellos[j])
    {
      ClientHelloAtIsPrinted(capture, clients[j], s.clientHellos[j]);
    }
    forall j | 0 <= j < |servers|
      ensures PrintsServerHello(capture[servers[j]..], s.serverHellos[j])
    {
      ServerHelloAtIsPrinted(capture, servers[j], s.serverHellos[j]);
    }
    forall i, view | 0 <= i < |capture| && PrintsClientHello(capture[i..], view)
      ensures i in clients
    {
      ClientHelloAtIsPrinted(capture, i, view);
    }
    forall i, view | 0 <= i < |capture| && PrintsServerHello(capture[i..], view)
      ensures i in servers
    {
      ServerHelloAtIsPrinted(capture, i, view);
    }
  }

  /** A printed ServerHello is listed wherever it lies in the capture, with its retry flag and its last group. */
  lemma ServerHelloInCapture(before: bytes, f: ServerFrame, ts: seq<Tlv>)
    requires f.Valid() && f.block == PrintTlvs(ts) && Readable(ts)
    requires f.header == [0x16, 0x03, 0x01] || f.header == [0x16, 0x03, 0x03]
    ensures ServerView(f.random == HRR_RANDOM, LastGroup(ts)) in Summarize(before + f.Print()).serverHellos
  {
    hide HelloAt, HellosFrom, ServerFrame.Print, ServerFrame.Valid, LastGroup, Readable;
    var capture, view := before + f.Print(), ServerView(f.random == HRR_RANDOM, LastGroup(ts));
    assert capture[|before|..] == f.Print();
    HeaderOfServer(f);
    assert PrintsServerHello(capture[|before|..], view);
    ServerHelloAtIsPrinted(capture, |before|, view);
    HelloIsSummarized(capture, 0, |before|);
  }
}

/** Bytes around a hello never change how it reads: captures that grow, and records inside captures. */
module CaptureStability {
  import opened Bytes
  import opened Tlvs
  import opened Extensions
  import opened ClientHelloFrame
  import opened ClientHelloStrip
  import opened CaptureReader
  import opened CaptureProperties

  // ---- appending bytes

  lemma LocatorStable(record: bytes, more: bytes)
    requires Located(record)
    ensures ClientHelloExtensions(record + more) == ClientHelloExtensions(record)
    ensures FrameOf(record + more).block == FrameOf(record).block
  {
    hide ClientHelloExtensions;
    var (start, end) := Bounds(record);
    var longer := record + more;
    assert forall i :: 0 <= i < |record| ==> longer[i] == record[i];
    assert Framed(longer, start, end);
    LocatorExact(longer, start, end);
    assert longer[start..end] == record[start..end];
  }

  lemma ClientHelloStable(record: bytes, more: bytes)
    requires ReadClientHello(record).Ok?
    ensures ReadClientHello(record + more) == ReadClientHello(record)
  {
    hide ClientHelloExtensions, FrameOf, ParseTlvs, ReadExtensions;
    LocatorStable(record, more);
  }

  lemma ServerHelloStable(record: bytes, more: bytes)
    requires ReadServerHello(record).Ok?
    ensures ReadServerHello(record + more) == ReadServerHello(record)
  {
    hide ParseTlvs, GroupOfRest;
    var longer := record + more;
    assert forall i :: 0 <= i < |record| ==> longer[i] == record[i];
    var cursor := 47 + record[43] as int;
    var end := cursor + 2 + U16(record, cursor);
    assert longer[cursor + 2..end] == record[cursor + 2..end];
    assert longer[11..43] == record[11..43];
  }

  /** A hello found at some offset of a capture is found there in every capture that extends it. */
  lemma HelloStable(capture: bytes, more: bytes, i: nat)
    requires i <= |capture| && HelloAt(capture, i) != Nothing
    ensures HelloAt(capture + more, i) == HelloAt(capture, i)
  {
    hide ReadClientHello, ReadServerHello;
    var record := capture[i..];
    assert (capture + more)[i..] == record + more;
    if record[5] == TLS_CLIENT_HELLO {
      ClientHelloStable(record, more);
    } else {
      ServerHelloStable(record, more);
    }
  }

  /** `a` is obtained from `b` by dropping elements. */
  predicate Subsequence<T(==)>(a: seq<T>, b: seq<T>) {
    a == [] || (b != [] && ((a[0] == b[0] && Subsequence(a[1..], b[1..])) || Subsequence(a, b[1..])))
  }

  lemma SubsequenceGrows<T>(kept: seq<T>, here: seq<T>, a: seq<T>, b: seq<T>)
    requires Subsequence(a, b) && (kept == [] || kept == here) && |here| <= 1
    ensures Subsequence(kept + a, here + b)
  {
    if here == [] {
      assert kept + a == a && here + b == b;
    } else if kept == [] {
      assert kept + a == a && (here + b)[1..] == b;
    } else {
      assert (kept + a)[1..] == a && (here + b)[1..] == b;
    }
  }

  lemma {:induction false} HellosSurviveFrom(capture: bytes, more: bytes, i: nat)
    requires i <= |capture|
    ensures Subsequence(HellosFrom(capture, i).clientHellos, HellosFrom(capture + more, i).clientHellos)
    ensures Subsequence(HellosFrom(capture, i).serverHellos, HellosFrom(capture + more, i).serverHellos)
    decreases |capture| - i
  {
    hide HelloAt;
    if i < |capture| {
      var here, there := HelloAt(capture, i), HelloAt(capture + more, i);
      var a, b := HellosFrom(capture, i + 1), HellosFrom(capture + more, i + 1);
      HellosSurviveFrom(capture, more, i + 1);
      if here != Nothing {
        HelloStable(capture, more, i);
      }
      SubsequenceGrows(Clients(here), Clients(there), a.clientHellos, b.clientHellos);
      SubsequenceGrows(Servers(here), Servers(there), a.serverHellos, b.serverHellos);
    }
  }

  /** Extending a capture only adds hellos: those already found stay, in order. */
  lemma HellosSurvive(capture: bytes, more: bytes)
    ensures Subsequence(Summarize(capture).clientHellos, Summarize(capture + more).clientHellos)
    ensures Subsequence(Summarize(capture).serverHellos, Summarize(capture + more).serverHellos)
  {
    HellosSurviveFrom(capture, more, 0);
  }

  lemma {:induction false} HelloIsSummarized(capture: bytes, i: nat, j: nat)
    requires i <= j < |capture|
    ensures HelloAt(capture, j).Client? ==> HelloAt(capture, j).client in HellosFrom(capture, i).clientHellos
    ensures HelloAt(capture, j).Server? ==> HelloAt(capture, j).server in HellosFrom(capture, i).serverHellos
    decreases j - i
  {
    hide HelloAt;
    if i < j {
      HelloIsSummarized(capture, i + 1, j);
    }
  }

  /** A record that survives inside a capture, whatever surrounds it, is reported as it reads alone. */
  lemma RecordInCapture(before: bytes, record: bytes, after: bytes)
    requires |record| >= 6 && MarkerAt(record, 0) && record[5] == TLS_CLIENT_HELLO && ReadClientHello(record).Ok?
    ensures ReadClientHello(record).value in Summarize(before + record + after).clientHellos
  {
    hide ReadClientHello, ReadServerHello, HellosFrom;
    var capture, i := before + record + after, |before|;
    assert capture[i..] == record + after;
    assert MarkerAt(capture, i) by {
      assert capture[i] == record[0] && capture[i + 1] == record[1] && capture[i + 2] == record[2];
    }
    ClientHelloStable(record, after);
    HelloIsSummarized(capture, 0, i);
  }

  /** The upstream leg of a stripped connection: wherever the stripped record lies in the capture, the reader
      reports it with the remaining groups and shares. */
  lemma StrippedRecordInCapture(before: bytes, record: bytes, after: bytes, g: int)
    requires Strip(record, g).Ok? && MarkerAt(record, 0)
    ensures ReadClientHello(record).Ok?
    ensures var view := ReadClientHello(record).value;
            ClientView(WithoutId(view.groups, g), WithoutId(view.shares, g))
            in Summarize(before + Strip(record, g).value + after).clientHellos
  {
    hide ReadClientHello, WithoutId, Summarize, Strip, FrameOf;
    var out := Strip(record, g).value;
    StripMeaning(record, g);
    StripSeenByWalkers(record, g);
    MarkerOfVersion(record);
    MarkerOfVersion(out);
    RecordInCapture(before, out, after);
  }

  lemma MarkerOfVersion(record: bytes)
    requires Located(record)
    ensures |record| >= 6 && record[5] == TLS_CLIENT_HELLO
    ensures MarkerAt(record, 0) <==> FrameOf(record).version == [0x03, 0x01] || FrameOf(record).version == [0x03, 0x03]
  {
    hide ClientHelloExtensions;
    var (start, end) := Bounds(record);
    assert FrameOf(record).version == [record[1], record[2]];
  }
}

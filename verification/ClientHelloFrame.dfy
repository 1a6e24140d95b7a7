/** The three nested lengths of a TLS ClientHello record: record (RFC 8446 section 5.1), handshake
    message (section 4.1.2) and extension block (section 4.2). */
module ClientHelloFrame {
  import opened Bytes

  const TLS_HANDSHAKE: byte := 0x16
  const TLS_CLIENT_HELLO: byte := 0x01

  /** `_client_hello_extensions`: where the extension block starts and ends. */
  function ClientHelloExtensions(record: bytes): Result<(nat, nat)> {
    if |record| < 9 || record[0] != TLS_HANDSHAKE then Err(ValueError) else
    var recordEnd := 5 + U16(record, 3);
    if recordEnd > |record| || record[5] != TLS_CLIENT_HELLO then Err(ValueError) else
    var handshakeEnd := 9 + U24(record, 6);
    if handshakeEnd > recordEnd then Err(ValueError) else
    var cursor := 9 + 2 + 32;
    if cursor >= handshakeEnd then Err(ValueError) else
    var cursor := cursor + 1 + record[cursor] as int;
    var cipherSuitesLength :- ReadU16(record, cursor);
    var cursor := cursor + 2 + cipherSuitesLength;
    if cursor >= handshakeEnd then Err(ValueError) else
    var cursor := cursor + 1 + record[cursor] as int;
    var extensionsLength :- ReadU16(record, cursor);
    var cursor := cursor + 2;
    var extensionsEnd := cursor + extensionsLength;
    if extensionsEnd > handshakeEnd then Err(ValueError) else
    Ok((cursor, extensionsEnd))
  }

  /** A ClientHello record followed by `tail`.  `hsSlack` is what the handshake length covers after the
      extension block, `recSlack` what the record length covers after the handshake message. */
  datatype Frame = Frame(
    version: bytes, legacy: bytes, sessionId: bytes, suites: bytes, compression: bytes,
    block: vec16, hsSlack: bytes, recSlack: bytes, tail: bytes)
  {
    function BodySize(): nat {
      40 + |sessionId| + |suites| + |compression| + |block| + |hsSlack|
    }

    predicate Valid() {
      && |version| == 2 && |legacy| == 34
      && |sessionId| < 0x100 && |suites| < 0x1_0000 && |compression| < 0x100
      && 4 + BodySize() + |recSlack| < 0x1_0000
    }

    /** The offset of the extension block in the printed record. */
    function Start(): nat {
      49 + |sessionId| + |suites| + |compression|
    }

    function Head(): (s: bytes)
      requires Valid()
      ensures |s| == 9
    {
      [0x16] + version + B2(4 + BodySize() + |recSlack|) + [0x01] + B3(BodySize())
    }

    function Prefix(): (s: bytes)
      requires Valid()
      ensures |s| == Start() - 11
    {
      legacy + [|sessionId|] + sessionId + B2(|suites|) + suites + [|compression|] + compression
    }

    function Rest(): bytes {
      hsSlack + recSlack + tail
    }

    /** The record as it travels on the wire. */
    function Print(): bytes
      requires Valid()
    {
      Head() + Prefix() + B2(|block|) + block + Rest()
    }
  }

  /** What the locator accepts, without its control flow: every length field fits in the enclosing one. */
  predicate Framed(record: bytes, start: nat, end: nat) {
    && |record| >= 9 && record[0] == 0x16 && record[5] == 0x01
    && 49 <= start <= end <= 9 + U24(record, 6) <= 5 + U16(record, 3) <= |record|
    && end == start + U16(record, start - 2)
    && var suites := 44 + record[43] as int;
    && suites + 2 <= start
    && var compression := suites + 2 + U16(record, suites);
    && compression + 3 <= start == compression + 3 + record[compression]
  }

  /** The locator is exactly that description, and `ValueError` is the only exception it can raise. */
  lemma LocatorExact(record: bytes, start: nat, end: nat)
    ensures ClientHelloExtensions(record) == Ok((start, end)) <==> Framed(record, start, end)
    ensures ClientHelloExtensions(record).Err? ==> ClientHelloExtensions(record) == Err(ValueError)
  {
  }

  predicate Located(record: bytes) {
    ClientHelloExtensions(record).Ok?
  }

  function Bounds(record: bytes): (b: (nat, nat))
    requires Located(record)
    ensures Framed(record, b.0, b.1)
  {
    var b := ClientHelloExtensions(record).value;
    LocatorExact(record, b.0, b.1);
    b
  }

  /** The frame a located record prints. */
  function FrameOf(record: bytes): Frame
    requires Located(record)
  {
    var (start, end) := Bounds(record);
    var suites := 44 + record[43] as int;
    var compression := suites + 2 + U16(record, suites);
    var handshakeEnd, recordEnd := 9 + U24(record, 6), 5 + U16(record, 3);
    Frame(record[1..3], record[9..43], record[44..suites], record[suites + 2..compression],
          record[compression + 1..start - 2], record[start..end],
          record[end..handshakeEnd], record[handshakeEnd..recordEnd], record[recordEnd..])
  }

  lemma CutPrefix(d: bytes, a: nat, b: nat, end: nat)
    requires 44 <= a && a + 2 <= b < end <= |d|
    ensures d[9..end] == d[9..43] + [d[43]] + d[44..a] + d[a..a + 2] + d[a + 2..b] + [d[b]] + d[b + 1..end]
  {
    assert d[9..44] == d[9..43] + [d[43]];
    assert d[b..end] == [d[b]] + d[b + 1..end];
    assert d[9..end] == d[9..44] + d[44..a] + d[a..a + 2] + d[a + 2..b] + d[b..end];
  }

  lemma PrefixOfFrame(record: bytes)
    requires Located(record)
    ensures FrameOf(record).Valid() && FrameOf(record).Start() == Bounds(record).0
    ensures FrameOf(record).Prefix() == record[9..Bounds(record).0 - 2]
  {
    hide B2, B3, ClientHelloExtensions;
    var start := Bounds(record).0;
    var suites := 44 + record[43] as int;
    var compression := suites + 2 + U16(record, suites);
    B2OfU16(record, suites);
    CutPrefix(record, suites, compression, start - 2);
  }

  lemma HeadOfFrame(record: bytes)
    requires Located(record)
    ensures FrameOf(record).Valid()
    ensures FrameOf(record).Head() == record[..9]
  {
    hide B2, B3, ClientHelloExtensions;
    PrefixOfFrame(record);
    B2OfU16(record, 3);
    B3OfU24(record, 6);
    var f := FrameOf(record);
    assert f.BodySize() == U24(record, 6) && 4 + f.BodySize() + |f.recSlack| == U16(record, 3);
    assert record[..9] == [record[0]] + record[1..3] + record[3..5] + [record[5]] + record[6..9];
  }

  lemma RestOfFrame(record: bytes)
    requires Located(record)
    ensures FrameOf(record).Rest() == record[Bounds(record).1..]
  {
  }

  /** Printing the frame of a located record gives the record back. */
  lemma PrintFrameOf(record: bytes)
    requires Located(record)
    ensures FrameOf(record).Valid()
    ensures FrameOf(record).Print() == record
  {
    hide B2, B3, ClientHelloExtensions, Frame.Head, Frame.Prefix, Frame.Rest, FrameOf;
    PiecesOfFrame(record);
    var (start, end) := Bounds(record);
    Cut5(record, 9, start - 2, start, end);
  }

  lemma PiecesOfFrame(record: bytes)
    requires Located(record)
    ensures var f, (start, end) := FrameOf(record), Bounds(record);
            && f.Valid()
            && f.Head() == record[..9] && f.Prefix() == record[9..start - 2]
            && B2(|f.block|) == record[start - 2..start]
            && f.block == record[start..end] && f.Rest() == record[end..]
  {
    hide B2, B3, ClientHelloExtensions, Frame.Head, Frame.Prefix, Frame.Rest;
    PrefixOfFrame(record);
    HeadOfFrame(record);
    RestOfFrame(record);
    B2OfU16(record, Bounds(record).0 - 2);
  }

  lemma HeadFields(f: Frame)
    requires f.Valid()
    ensures var record := f.Print();
            && |record| == 9 + f.BodySize() + |f.recSlack| + |f.tail|
            && record[0] == TLS_HANDSHAKE && record[5] == TLS_CLIENT_HELLO && record[1..3] == f.version
            && U16(record, 3) == 4 + f.BodySize() + |f.recSlack| && U24(record, 6) == f.BodySize()
  {
    var head := f.Head();
    assert U16(head, 3) == 4 + f.BodySize() + |f.recSlack| && U24(head, 6) == f.BodySize();
    assert head[1..3] == f.version;
    var record := f.Print();
    assert record[..9] == head;
    assert record[1..3] == head[1..3];
  }

  lemma PrefixFields(f: Frame)
    requires f.Valid()
    ensures var p, suites := f.Prefix(), 35 + |f.sessionId|;
            var compression := suites + 2 + |f.suites|;
            && p[34] == |f.sessionId| && U16(p, suites) == |f.suites| && p[compression] == |f.compression|
            && p[0..34] == f.legacy && p[35..suites] == f.sessionId
            && p[suites + 2..compression] == f.suites && p[compression + 1..|p|] == f.compression
  {
    hide B2, B3;
  }

  lemma PrefixSlices(f: Frame)
    requires f.Valid()
    ensures var record, suites := f.Print(), 44 + |f.sessionId|;
            var compression := suites + 2 + |f.suites|;
            && |record| >= f.Start()
            && record[43] == |f.sessionId| && U16(record, suites) == |f.suites|
            && record[compression] == |f.compression|
            && record[9..43] == f.legacy && record[44..suites] == f.sessionId
            && record[suites + 2..compression] == f.suites && record[compression + 1..f.Start() - 2] == f.compression
  {
    hide B2, B3;
    var p, record := f.Prefix(), f.Print();
    var suites := 35 + |f.sessionId|;
    var compression := suites + 2 + |f.suites|;
    PrefixFields(f);
    var end := 9 + |p|;
    assert record[9..end] == p;
    SliceOfSlice(record, 9, end, 0, 34);
    SliceOfSlice(record, 9, end, 35, suites);
    SliceOfSlice(record, 9, end, suites + 2, compression);
    SliceOfSlice(record, 9, end, compression + 1, |p|);
    assert record[43] == record[9..end][34] && record[9 + compression] == record[9..end][compression];
    assert U16(record, 9 + suites) == U16(record[9..end], suites);
  }

  lemma BlockFields(f: Frame)
    requires f.Valid()
    ensures var record, start := f.Print(), f.Start();
            var end := start + |f.block|;
            && |record| == end + |f.hsSlack| + |f.recSlack| + |f.tail|
            && U16(record, start - 2) == |f.block| && record[start..end] == f.block && record[end..] == f.Rest()
  {
  }

  lemma RestFields(f: Frame)
    ensures var a, b := |f.hsSlack|, |f.hsSlack| + |f.recSlack|;
            f.Rest()[0..a] == f.hsSlack && f.Rest()[a..b] == f.recSlack && f.Rest()[b..|f.Rest()|] == f.tail
  {
  }

  lemma RestSlices(f: Frame)
    requires f.Valid()
    ensures var record, end := f.Print(), f.Start() + |f.block|;
            var a, b := end + |f.hsSlack|, end + |f.hsSlack| + |f.recSlack|;
            && b <= |record|
            && record[end..a] == f.hsSlack && record[a..b] == f.recSlack && record[b..] == f.tail
  {
    hide B2, B3;
    var record, end := f.Print(), f.Start() + |f.block|;
    var a, b := |f.hsSlack|, |f.hsSlack| + |f.recSlack|;
    BlockFields(f);
    RestFields(f);
    SliceOfSlice(record, end, |record|, 0, a);
    SliceOfSlice(record, end, |record|, a, b);
    SliceOfSlice(record, end, |record|, b, |f.Rest()|);
  }

  lemma LocatePrint(f: Frame)
    requires f.Valid()
    ensures ClientHelloExtensions(f.Print()) == Ok((f.Start(), f.Start() + |f.block|))
  {
    hide B2, B3, ClientHelloExtensions;
    HeadFields(f);
    PrefixSlices(f);
    BlockFields(f);
    LocatorExact(f.Print(), f.Start(), f.Start() + |f.block|);
  }

  /** The locator finds the block of every printed frame, and the frame it yields is the one printed. */
  lemma FrameOfPrint(f: Frame)
    requires f.Valid()
    ensures ClientHelloExtensions(f.Print()) == Ok((f.Start(), f.Start() + |f.block|))
    ensures FrameOf(f.Print()) == f
  {
    hide B2, B3, ClientHelloExtensions;
    LocatePrint(f);
    HeadFields(f);
    PrefixSlices(f);
    BlockFields(f);
    RestSlices(f);
  }
}

/** ServerHello records as RFC 8446 section 4.1.3 lays them out, against the capture reader. */
module ServerHelloFormat {
  import opened Bytes
  import opened Tlvs
  import opened Extensions
  import opened CaptureReader

  /** A ServerHello record followed by `tail`.  `slack` is what the record length covers after the extensions;
      the handshake length is any three bytes, since the reader never uses it. */
  datatype ServerFrame = ServerFrame(
    header: bytes, handshakeLength: bytes, version: bytes, random: bytes, sessionId: bytes, suite: bytes,
    block: vec16, slack: bytes, tail: bytes)
  {
    function Size(): nat {
      44 + |sessionId| + |block| + |slack|
    }

    predicate Valid() {
      && |header| == 3 && |handshakeLength| == 3 && |version| == 2 && |random| == 32 && |suite| == 3
      && |sessionId| < 0x100 && Size() < 0x1_0000
    }

    function Head(): (s: bytes)
      requires Valid()
      ensures |s| == 44
    {
      header + B2(Size()) + [0x02] + handshakeLength + version + random + [|sessionId|]
    }

    function Print(): bytes
      requires Valid()
    {
      Head() + (sessionId + suite) + B2(|block|) + block + (slack + tail)
    }
  }

  /** The group of the last key_share extension of a list. */
  function LastGroup(ts: seq<Tlv>): Option<u16>
    requires Readable(ts)
  {
    if ts == [] then None
    else
      var t := ts[|ts| - 1];
      if t.tag == 0x0033 then Some(U16(t.value, 0)) else LastGroup(ts[..|ts| - 1])
  }

  /** Every key_share payload can hold a group id. */
  predicate Readable(ts: seq<Tlv>) {
    forall i :: 0 <= i < |ts| && ts[i].tag == 0x0033 ==> |ts[i].value| >= 2
  }

  lemma {:induction false} LastShareSnoc(ts: seq<Tlv>, t: Tlv, group: Option<u16>)
    ensures LastShareGroup(ts + [t], group)
            == var r := LastShareGroup(ts, group);
               if r.Err? || t.tag != TLS_KEY_SHARE then r
               else if |t.value| < 2 then Err(ValueError)
               else Ok(Some(U16(t.value, 0)))
  {
    if ts == [] {
      assert ts + [t] == [t];
    } else {
      assert (ts + [t])[1..] == ts[1..] + [t];
      LastShareSnoc(ts[1..], t, group);
      if |ts[0].value| >= 2 {
        LastShareSnoc(ts[1..], t, Some(U16(ts[0].value, 0)));
      }
    }
  }

  lemma {:induction false} LastShareIsLast(ts: seq<Tlv>)
    ensures LastShareGroup(ts, None) == if Readable(ts) then Ok(LastGroup(ts)) else Err(ValueError)
  {
    if ts != [] {
      var front, t := ts[..|ts| - 1], ts[|ts| - 1];
      assert ts == front + [t];
      LastShareIsLast(front);
      LastShareSnoc(front, t, None);
      assert Readable(ts) <==> Readable(front) && (t.tag == TLS_KEY_SHARE ==> |t.value| >= 2);
    }
  }

  lemma HeadOfServer(f: ServerFrame)
    requires f.Valid()
    ensures var d := f.Print();
            && |d| == 5 + f.Size() + |f.tail|
            && U16(d, 3) == f.Size() && d[5] == TLS_SERVER_HELLO && d[11..43] == f.random && d[43] == |f.sessionId|
  {
    hide B2;
    var head, d := f.Head(), f.Print();
    assert U16(head, 3) == f.Size() && head[5] == TLS_SERVER_HELLO;
    assert head[11..43] == f.random && head[43] == |f.sessionId|;
    assert d[0..44] == head;
    SliceOfSlice(d, 0, 44, 11, 43);
    assert U16(d[0..44], 3) == U16(d, 3) && d[0..44][5] == d[5] && d[0..44][43] == d[43];
  }

  lemma BlockOfServer(f: ServerFrame)
    requires f.Valid()
    ensures var d, cursor := f.Print(), 47 + |f.sessionId|;
            && cursor + 2 + |f.block| <= 5 + f.Size() <= |d|
            && U16(d, cursor) == |f.block| && d[cursor + 2..cursor + 2 + |f.block|] == f.block
  {
    hide B2, ServerFrame.Head;
  }

  /** Every printed ServerHello whose key_share payloads can hold a group reads back as what was printed: a retry
      request exactly when the random is the retry constant, and the group of the last key_share.  Any other
      extension list is refused. */
  lemma ServerHelloReadsBack(f: ServerFrame, ts: seq<Tlv>)
    requires f.Valid() && f.block == PrintTlvs(ts)
    ensures ReadServerHello(f.Print())
            == if Readable(ts) then Ok(ServerView(f.random == HRR_RANDOM, LastGroup(ts))) else Err(ValueError)
  {
    hide B2, ServerFrame.Head, ServerFrame.Print, ParseTlvs, PrintTlvs, LastShareGroup, LastGroup;
    HeadOfServer(f);
    BlockOfServer(f);
    ParsePrint(ts);
    LastShareIsLast(ts);
  }

  /** And everything the reader accepts is a printed ServerHello. */
  lemma ServerHelloIsPrinted(record: bytes) returns (f: ServerFrame, ts: seq<Tlv>)
    requires ReadServerHello(record).Ok?
    ensures f.Valid() && Readable(ts) && f.block == PrintTlvs(ts) && f.Print() == record
  {
    hide B2, ParseTlvs, PrintTlvs, LastShareGroup, ServerFrame.Print, ServerFrame.Valid;
    var recordEnd, cursor := 5 + U16(record, 3), 47 + record[43] as int;
    var end := cursor + 2 + U16(record, cursor);
    f := ServerFrameOf(record, cursor, end, recordEnd);
    ts := ParseTlvs(record[cursor + 2..end]).value;
    PrintParse(record[cursor + 2..end]);
    LastShareIsLast(ts);
    PrintServerFrame(record, cursor, end, recordEnd);
  }

  /** The frame cut out of a record at the ends its length fields give. */
  function ServerFrameOf(d: bytes, cursor: nat, end: nat, recordEnd: nat): ServerFrame
    requires 47 <= cursor && cursor + 2 <= end <= recordEnd <= |d| && end < cursor + 2 + 0x1_0000
  {
    ServerFrame(d[0..3], d[6..9], d[9..11], d[11..43], d[44..cursor - 3], d[cursor - 3..cursor],
                d[cursor + 2..end], d[end..recordEnd], d[recordEnd..])
  }

  lemma PrintServerFrame(d: bytes, cursor: nat, end: nat, recordEnd: nat)
    requires 47 <= cursor && cursor + 2 <= end <= recordEnd <= |d|
    requires d[5] == TLS_SERVER_HELLO && cursor == 47 + d[43] as int
    requires end == cursor + 2 + U16(d, cursor) && recordEnd == 5 + U16(d, 3)
    ensures var f := ServerFrameOf(d, cursor, end, recordEnd);
            f.Valid() && f.Print() == d
  {
    hide B2, ServerFrame.Head;
    B2OfU16(d, cursor);
    HeadOfFrame(d, cursor, end, recordEnd);
    assert d[44..cursor - 3] + d[cursor - 3..cursor] == d[44..cursor];
    assert d[end..recordEnd] + d[recordEnd..] == d[end..];
    Cut5(d, 44, cursor, cursor + 2, end);
  }

  lemma HeadOfFrame(d: bytes, cursor: nat, end: nat, recordEnd: nat)
    requires 47 <= cursor && cursor + 2 <= end <= recordEnd <= |d|
    requires d[5] == TLS_SERVER_HELLO && cursor == 47 + d[43] as int
    requires end == cursor + 2 + U16(d, cursor) && recordEnd == 5 + U16(d, 3)
    ensures var f := ServerFrameOf(d, cursor, end, recordEnd);
            f.Valid() && f.Head() == d[..44]
  {
    hide B2;
    B2OfU16(d, 3);
    assert ServerFrameOf(d, cursor, end, recordEnd).Size() == U16(d, 3);
    assert d[..44] == d[0..3] + d[3..5] + [d[5]] + d[6..9] + d[9..11] + d[11..43] + [d[43]];
  }
}

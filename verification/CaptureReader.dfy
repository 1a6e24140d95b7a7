/** The capture reader: a second, more lenient walk over ClientHellos, a walk over ServerHellos
    (RFC 8446 section 4.1.3), and the scan that finds both in raw capture bytes. */
module CaptureReader {
  import opened Bytes
  import opened Tlvs
  import opened Extensions
  import opened ClientHelloFrame
  import opened ClientHelloStrip

  const HRR_RANDOM: bytes := [
    0xcf, 0x21, 0xad, 0x74, 0xe5, 0x9a, 0x61, 0x11, 0xbe, 0x1d, 0x8c, 0x02, 0x1e, 0x65, 0xb8, 0x91,
    0xc2, 0xa2, 0x11, 0x16, 0x7a, 0xbb, 0x8c, 0x5e, 0x07, 0x9e, 0x09, 0xe2, 0xc8, 0xa8, 0x33, 0x9c]

  const TLS_SERVER_HELLO: byte := 0x02

  // ---- client hellos

  datatype ClientView = ClientView(groups: seq<u16>, shares: seq<u16>)

  /** The ids from offset `c` to the end of the payload. */
  function LenientGroups(payload: bytes, c: nat): Result<seq<u16>>
    decreases |payload| - c
  {
    if c >= |payload| then Ok([]) else
    var id :- ReadU16(payload, c);
    var rest :- LenientGroups(payload, c + 2);
    Ok([id] + rest)
  }

  /** The ids of the entries from offset `c` on, whether or not the last value is complete. */
  function LenientShares(payload: bytes, c: nat): Result<seq<u16>>
    decreases |payload| - c
  {
    if c >= |payload| then Ok([]) else
    var id :- ReadU16(payload, c);
    var length :- ReadU16(payload, c + 2);
    var rest :- LenientShares(payload, c + 4 + length);
    Ok([id] + rest)
  }

  /** The reader's pass over an extension list: later group lists replace earlier ones, shares add up. */
  function ReadExtensions(ts: seq<Tlv>, view: ClientView): Result<ClientView> {
    if ts == [] then Ok(view)
    else if ts[0].tag == TLS_SUPPORTED_GROUPS then
      var groups :- LenientGroups(ts[0].value, 2);
      ReadExtensions(ts[1..], view.(groups := groups))
    else if ts[0].tag == TLS_KEY_SHARE then
      var shares :- LenientShares(ts[0].value, 2);
      ReadExtensions(ts[1..], view.(shares := view.shares + shares))
    else ReadExtensions(ts[1..], view)
  }

  function ReadRest(rest: Result<seq<Tlv>>, view: ClientView): Result<ClientView> {
    var ts :- rest;
    ReadExtensions(ts, view)
  }

  function ReadClientHello(record: bytes): Result<ClientView> {
    ReadRest(ExtensionTlvs(record), ClientView([], []))
  }

  lemma {:induction false} LenientSharesError(payload: bytes, c: nat)
    ensures LenientShares(payload, c).Err? ==> LenientShares(payload, c) == Err(ValueError)
    decreases |payload| - c
  {
    if c + 4 <= |payload| {
      LenientSharesError(payload, c + 4 + U16(payload, c + 2));
    }
  }

  lemma {:induction false} ReadExtensionsError(ts: seq<Tlv>, view: ClientView)
    ensures ReadExtensions(ts, view).Err? ==> ReadExtensions(ts, view) == Err(ValueError)
  {
    hide LenientGroups, LenientShares;
    if ts != [] {
      LenientSharesError(ts[0].value, 2);
      LenientGroupsError(ts[0].value, 2);
      var shares := LenientShares(ts[0].value, 2);
      var groups := LenientGroups(ts[0].value, 2);
      ReadExtensionsError(ts[1..], view);
      if groups.Ok? {
        ReadExtensionsError(ts[1..], view.(groups := groups.value));
      }
      if shares.Ok? {
        ReadExtensionsError(ts[1..], view.(shares := view.shares + shares.value));
      }
    }
  }

  lemma LenientGroupsError(payload: bytes, c: nat)
    ensures LenientGroups(payload, c).Err? ==> LenientGroups(payload, c) == Err(ValueError)
  {
    hide LenientGroups;
    LenientGroupsExact(payload, c);
  }

  /** The ids are those of the bytes from `c` on; an odd rest is refused. */
  lemma {:induction false} LenientGroupsExact(payload: bytes, c: nat)
    ensures LenientGroups(payload, c)
            == if c >= |payload| then Ok([])
               else if (|payload| - c) % 2 == 1 then Err(ValueError)
               else Ok(ParseIds(payload[c..]))
    decreases |payload| - c
  {
    if c + 2 <= |payload| {
      assert payload[c..][2..] == payload[c + 2..];
      LenientGroupsExact(payload, c + 2);
    }
  }

  /** The list of ids read at every even offset from 2 on. */
  method ReadGroupList(payload: bytes) returns (r: Result<seq<u16>>)
    ensures r == LenientGroups(payload, 2)
  {
    var groups: seq<u16> := [];
    var index := 2;
    PrependNothing(LenientGroups(payload, 2));
    while index < |payload|
      invariant LenientGroups(payload, 2) == Prepend(groups, LenientGroups(payload, index))
      decreases |payload| - index
    {
      var id :- ReadU16(payload, index);
      PrependTwice(groups, [id], LenientGroups(payload, index + 2));
      groups := groups + [id];
      index := index + 2;
    }
    assert groups + [] == groups;
    return Ok(groups);
  }

  /** `s` is the printed form of `es`, whole or with only the value of its last entry cut short. */
  predicate CutShort(s: bytes, es: seq<Tlv>) {
    s <= PrintTlvs(es) && (es == [] || |PrintTlvs(es)| - |es[|es| - 1].value| <= |s|)
  }

  lemma CutShortFirst(s: bytes, es: seq<Tlv>)
    requires CutShort(s, es) && es != []
    ensures |s| >= 4 && U16(s, 0) == es[0].tag && U16(s, 2) == |es[0].value|
    ensures |es| == 1 ==> |s| <= 4 + |es[0].value|
    ensures |es| > 1 ==> 4 + |es[0].value| < |s| && CutShort(s[4 + |es[0].value|..], es[1..])
  {
    hide PrintTlvs, B2;
    PrintFirst(es);
    PrintNothing();
    var whole, first, rest := PrintTlvs(es), PrintTlv(es[0]), PrintTlvs(es[1..]);
    assert U16(first, 0) == es[0].tag && U16(first, 2) == |es[0].value|;
    if |es| > 1 {
      PrintSize(es[1..]);
    }
    assert |s| >= 4;
    assert forall i :: 0 <= i < 4 ==> s[i] == whole[i] == first[i];
    if |es| > 1 {
      var tail := s[|first|..];
      assert forall i :: 0 <= i < |tail| ==> tail[i] == whole[|first| + i] == rest[i];
    }
  }

  /** A list is printed in no less than its last entry takes. */
  lemma {:induction false} PrintSize(es: seq<Tlv>)
    requires es != []
    ensures |PrintTlvs(es)| >= 4 + |es[|es| - 1].value|
  {
    hide PrintTlvs, PrintTlv;
    PrintFirst(es);
    if |es| > 1 {
      PrintSize(es[1..]);
    }
  }

  lemma {:induction false} LenientSharesOfCut(payload: bytes, c: nat, es: seq<Tlv>)
    requires c <= |payload| && CutShort(payload[c..], es)
    ensures LenientShares(payload, c) == Ok(Tags(es))
    decreases |es|
  {
    hide PrintTlvs, CutShort;
    if es == [] {
      NothingCut(payload[c..]);
    } else {
      var next := c + 4 + |es[0].value|;
      CutShortFirst(payload[c..], es);
      assert U16(payload, c) == U16(payload[c..], 0) && U16(payload, c + 2) == U16(payload[c..], 2);
      if |es| > 1 {
        assert payload[c..][4 + |es[0].value|..] == payload[next..];
        LenientSharesOfCut(payload, next, es[1..]);
      }
      assert Tags(es) == [es[0].tag] + Tags(es[1..]);
    }
  }

  lemma NothingCut(s: bytes)
    ensures CutShort(s, []) <==> s == []
  {
  }

  lemma {:induction false} CutOfLenientShares(payload: bytes, c: nat) returns (es: seq<Tlv>)
    requires c <= |payload| && LenientShares(payload, c).Ok?
    ensures CutShort(payload[c..], es)
    decreases |payload| - c
  {
    hide PrintTlvs, CutShort, B2;
    NothingCut(payload[c..]);
    if c == |payload| {
      return [];
    }
    var length := U16(payload, c + 2);
    var next := c + 4 + length;
    if next < |payload| {
      var rest := CutOfLenientShares(payload, next);
      NothingCut(payload[next..]);
      es := [Tlv(U16(payload, c), payload[c + 4..next])] + rest;
      CutShortCons(payload[c..], es[0], rest);
    } else {
      var value := payload[c + 4..] + seq(next - |payload|, _ => 0);
      es := [Tlv(U16(payload, c), value)];
      CutShortOne(payload[c..], es[0]);
    }
  }

  lemma CutShortOne(s: bytes, t: Tlv)
    requires 4 <= |s| <= 4 + |t.value| && U16(s, 0) == t.tag && U16(s, 2) == |t.value| && s[4..] <= t.value
    ensures CutShort(s, [t])
  {
    hide PrintTlvs, B2;
    PrintFirst([t]);
    PrintNothing();
    B2OfU16(s, 0);
    B2OfU16(s, 2);
    assert s == s[0..2] + s[2..4] + s[4..];
    assert t.value == s[4..] + t.value[|s| - 4..];
    assert [t][1..] == [] && PrintTlvs([t]) == PrintTlv(t);
    assert PrintTlv(t) == s + t.value[|s| - 4..];
  }

  lemma CutShortCons(s: bytes, t: Tlv, es: seq<Tlv>)
    requires 4 + |t.value| <= |s| && U16(s, 0) == t.tag && U16(s, 2) == |t.value| && s[4..4 + |t.value|] == t.value
    requires es != [] && CutShort(s[4 + |t.value|..], es)
    ensures CutShort(s, [t] + es)
  {
    hide PrintTlvs, B2;
    PrintCons(t, es);
    B2OfU16(s, 0);
    B2OfU16(s, 2);
    var rest := s[4 + |t.value|..];
    assert s == s[0..2] + s[2..4] + s[4..4 + |t.value|] + rest;
    assert PrintTlvs(es) == rest + PrintTlvs(es)[|rest|..];
    assert PrintTlvs([t] + es) == s + PrintTlvs(es)[|rest|..];
  }

  /** The share ids from offset `c` on are those of a list exactly when the bytes there print it, whole or with only its
      last value cut short; any other bytes are refused. */
  lemma LenientSharesExact(payload: bytes, c: nat, ids: seq<u16>)
    ensures LenientShares(payload, c) == Ok(ids) <==>
              exists es: seq<Tlv> :: CutShort(if c <= |payload| then payload[c..] else [], es) && Tags(es) == ids
  {
    hide CutShort, Tags;
    var d, o := if c <= |payload| then payload else [], if c <= |payload| then c else 0;
    assert LenientShares(payload, c) == LenientShares(d, o);
    assert d[o..] == if c <= |payload| then payload[c..] else [];
    forall es: seq<Tlv> | CutShort(d[o..], es)
      ensures LenientShares(d, o) == Ok(Tags(es))
    {
      LenientSharesOfCut(d, o, es);
    }
    if LenientShares(d, o).Ok? {
      var es := CutOfLenientShares(d, o);
      assert CutShort(d[o..], es);
    }
  }

  /** The cursor loop over a key_share payload. */
  method ReadShareIds(payload: bytes) returns (r: Result<seq<u16>>)
    ensures r == LenientShares(payload, 2)
  {
    var shares: seq<u16> := [];
    var cursor := 2;
    PrependNothing(LenientShares(payload, 2));
    while cursor < |payload|
      invariant LenientShares(payload, 2) == Prepend(shares, LenientShares(payload, cursor))
      decreases |payload| - cursor
    {
      var id :- ReadU16(payload, cursor);
      var length :- ReadU16(payload, cursor + 2);
      PrependTwice(shares, [id], LenientShares(payload, cursor + 4 + length));
      shares := shares + [id];
      cursor := cursor + 4 + length;
    }
    assert shares + [] == shares;
    return Ok(shares);
  }

  /** `_client_hello`, with the `_extensions` generator unrolled into its loop. */
  method ClientHello(record: bytes) returns (r: Result<ClientView>)
    ensures r == ReadClientHello(record)
  {
    hide ParseTlvs, NextTlv, LenientGroups, LenientShares, ClientHelloExtensions;
    LocatorExact(record, 0, 0);
    var bounds :- ClientHelloExtensions(record);
    var (start, end) := bounds;
    LocatorExact(record, start, end);
    var groups: seq<u16>, shares: seq<u16> := [], [];
    var cursor := start;
    while cursor < end
      invariant start <= cursor <= end
      invariant ReadClientHello(record) == ReadRest(ParseTlvs(record[cursor..end]), ClientView(groups, shares))
    {
      ParseAt(record, cursor, end);
      var t :- NextTlv(record, cursor, end);
      ghost var rest := ParseTlvs(record[cursor + 4 + |t.value|..end]);
      PrintParse(record[cursor + 4 + |t.value|..end]);
      ReadStep(t, rest, ClientView(groups, shares));
      LenientSharesError(t.value, 2);
      LenientGroupsError(t.value, 2);
      if t.tag == TLS_SUPPORTED_GROUPS {
        groups :- ReadGroupList(t.value);
      } else if t.tag == TLS_KEY_SHARE {
        var ids :- ReadShareIds(t.value);
        shares := shares + ids;
      }
      cursor := cursor + 4 + |t.value|;
    }
    assert record[end..end] == [];
    ParseEnd(record, end, []);
    PrependNothing(ParseTlvs(record[end..end]));
    return Ok(ClientView(groups, shares));
  }

  lemma ReadStep(t: Tlv, rest: Result<seq<Tlv>>, view: ClientView)
    requires rest.Err? ==> rest == Err(ValueError)
    ensures ReadRest(Prepend([t], rest), view)
            == if t.tag == TLS_SUPPORTED_GROUPS then
                 if LenientGroups(t.value, 2).Err? then Err(ValueError)
                 else ReadRest(rest, view.(groups := LenientGroups(t.value, 2).value))
               else if t.tag == TLS_KEY_SHARE then
                 if LenientShares(t.value, 2).Err? then Err(ValueError)
                 else ReadRest(rest, view.(shares := view.shares + LenientShares(t.value, 2).value))
               else ReadRest(rest, view)
  {
    hide LenientGroups, LenientShares;
    LenientSharesError(t.value, 2);
    LenientGroupsError(t.value, 2);
    if rest.Ok? {
      assert ([t] + rest.value)[1..] == rest.value;
    }
  }

  // ---- server hellos

  datatype ServerView = ServerView(isHrr: bool, group: Option<u16>)

  /** The group of the last key_share extension; one that cannot hold a group id is refused. */
  function LastShareGroup(ts: seq<Tlv>, group: Option<u16>): Result<Option<u16>> {
    if ts == [] then Ok(group)
    else if ts[0].tag == TLS_KEY_SHARE then
      var id :- ReadU16(ts[0].value, 0);
      LastShareGroup(ts[1..], Some(id))
    else LastShareGroup(ts[1..], group)
  }

  function GroupOfRest(rest: Result<seq<Tlv>>, group: Option<u16>): Result<Option<u16>> {
    var ts :- rest;
    LastShareGroup(ts, group)
  }

  /** `_server_hello`.  The handshake length is not looked at: the record length bounds everything. */
  function ReadServerHello(record: bytes): Result<ServerView> {
    var length :- ReadU16(record, 3);
    var recordEnd := 5 + length;
    if recordEnd > |record| then Err(ValueError) else
    if |record| == 5 then Err(IndexError) else
    if record[5] != TLS_SERVER_HELLO || recordEnd < 47 then Err(ValueError) else
    var cursor := 44 + record[43] as int + 3;
    var extensionsLength :- ReadU16(record, cursor);
    var extensionsEnd := cursor + 2 + extensionsLength;
    if extensionsEnd > recordEnd then Err(ValueError) else
    var group :- GroupOfRest(ParseTlvs(record[cursor + 2..extensionsEnd]), None);
    Ok(ServerView(record[11..43] == HRR_RANDOM, group))
  }

  lemma {:induction false} LastShareGroupError(ts: seq<Tlv>, group: Option<u16>)
    ensures LastShareGroup(ts, group).Err? ==> LastShareGroup(ts, group) == Err(ValueError)
  {
    if ts != [] {
      LastShareGroupError(ts[1..], group);
      if |ts[0].value| >= 2 {
        LastShareGroupError(ts[1..], Some(U16(ts[0].value, 0)));
      }
    }
  }

  lemma GroupOfRestError(d: bytes, group: Option<u16>)
    ensures GroupOfRest(ParseTlvs(d), group).Err? ==> GroupOfRest(ParseTlvs(d), group) == Err(ValueError)
  {
    hide ParseTlvs, LastShareGroup;
    PrintParse(d);
    if ParseTlvs(d).Ok? {
      LastShareGroupError(ParseTlvs(d).value, group);
    }
  }

  /** The one way the ServerHello reader raises something other than `ValueError`: five bytes announcing an
      empty record.  The scan never passes it fewer than six. */
  lemma ServerHelloRaises(record: bytes)
    ensures ReadServerHello(record) == Err(IndexError) <==> |record| == 5 && U16(record, 3) == 0
    ensures ReadServerHello(record).Err? && |record| != 5 ==> ReadServerHello(record) == Err(ValueError)
  {
    hide GroupOfRest, ParseTlvs;
    if |record| >= 47 && 47 + record[43] as int + 2 <= |record| {
      var cursor := 47 + record[43] as int;
      var end := cursor + 2 + U16(record, cursor);
      if end <= |record| {
        GroupOfRestError(record[cursor + 2..end], None);
      }
    }
  }

  lemma ClientHelloRaises(record: bytes)
    ensures ReadClientHello(record).Err? ==> ReadClientHello(record) == Err(ValueError)
  {
    hide ParseTlvs, FrameOf, ReadExtensions;
    if Located(record) {
      PrintParse(FrameOf(record).block);
      if ExtensionTlvs(record).Ok? {
        ReadExtensionsError(ExtensionTlvs(record).value, ClientView([], []));
      }
    }
  }

  /** `_server_hello`, with the `_extensions` generator unrolled into its loop. */
  method ServerHello(record: bytes) returns (r: Result<ServerView>)
    ensures r == ReadServerHello(record)
  {
    hide ParseTlvs, NextTlv;
    var recordLength :- ReadU16(record, 3);
    var recordEnd := 5 + recordLength;
    if recordEnd > |record| {
      return Err(ValueError);
    }
    if |record| == 5 {
      return Err(IndexError);
    }
    if record[5] != TLS_SERVER_HELLO || recordEnd < 47 {
      return Err(ValueError);
    }
    var random := record[11..43];
    var cursor := 44 + record[43] as int;
    cursor := cursor + 3;
    var length :- ReadU16(record, cursor);
    var end := cursor + 2 + length;
    if end > recordEnd {
      return Err(ValueError);
    }
    var group: Option<u16> := None;
    cursor := cursor + 2;
    ghost var start := cursor;
    GroupOfRestError(record[start..end], None);
    while cursor < end
      invariant start <= cursor <= end
      invariant GroupOfRest(ParseTlvs(record[start..end]), None) == GroupOfRest(ParseTlvs(record[cursor..end]), group)
    {
      ParseAt(record, cursor, end);
      var t :- NextTlv(record, cursor, end);
      ghost var rest := ParseTlvs(record[cursor + 4 + |t.value|..end]);
      PrintParse(record[cursor + 4 + |t.value|..end]);
      ServerStep(t, rest, group);
      if t.tag == TLS_KEY_SHARE {
        var id :- ReadU16(t.value, 0);
        group := Some(id);
      }
      cursor := cursor + 4 + |t.value|;
    }
    ParseEnd(record, end, []);
    PrependNothing(ParseTlvs(record[end..end]));
    return Ok(ServerView(random == HRR_RANDOM, group));
  }

  lemma ServerStep(t: Tlv, rest: Result<seq<Tlv>>, group: Option<u16>)
    requires rest.Err? ==> rest == Err(ValueError)
    ensures GroupOfRest(Prepend([t], rest), group)
            == if t.tag != TLS_KEY_SHARE then GroupOfRest(rest, group)
               else if |t.value| < 2 then Err(ValueError)
               else GroupOfRest(rest, Some(U16(t.value, 0)))
  {
    if rest.Ok? {
      assert ([t] + rest.value)[1..] == rest.value;
    }
  }

  // ---- the scan

  datatype HelloSummary = HelloSummary(clientHellos: seq<ClientView>, serverHellos: seq<ServerView>) {
    /** `hrr_count`. */
    function HrrCount(): nat {
      Count(serverHellos, true)
    }

    /** `server_hello_count`. */
    function ServerHelloCount(): nat {
      Count(serverHellos, false)
    }

    /** `final_group`: the group of the last hello that is not a retry request. */
    function FinalGroup(): Option<u16> {
      LastReal(serverHellos)
    }
  }

  function Count(views: seq<ServerView>, isHrr: bool): nat {
    if views == [] then 0 else (if views[0].isHrr == isHrr then 1 else 0) + Count(views[1..], isHrr)
  }

  function LastReal(views: seq<ServerView>): Option<u16> {
    if views == [] then None
    else if !views[|views| - 1].isHrr then views[|views| - 1].group
    else LastReal(views[..|views| - 1])
  }

  datatype Found = Nothing | Client(client: ClientView) | Server(server: ServerView)

  /** The three bytes that open a handshake record of TLS 1.0 or TLS 1.2 framing stand at offset `i`. */
  predicate MarkerAt(capture: bytes, i: nat) {
    && i + 3 <= |capture|
    && capture[i] == 0x16 && capture[i + 1] == 0x03 && (capture[i + 2] == 0x01 || capture[i + 2] == 0x03)
  }

  /** The hello that parses at offset `i`, if the marker stands there. */
  function HelloAt(capture: bytes, i: nat): Found
    requires i <= |capture|
  {
    var record := capture[i..];
    if !MarkerAt(capture, i) || |record| < 6 then Nothing
    else if record[5] == TLS_CLIENT_HELLO then
      var view := ReadClientHello(record);
      if view.Ok? then Client(view.value) else Nothing
    else if record[5] == TLS_SERVER_HELLO then
      var view := ReadServerHello(record);
      if view.Ok? then Server(view.value) else Nothing
    else Nothing
  }

  function Clients(found: Found): seq<ClientView> {
    if found.Client? then [found.client] else []
  }

  function Servers(found: Found): seq<ServerView> {
    if found.Server? then [found.server] else []
  }

  /** What trying the parsers at every offset from `i` on yields. */
  function HellosFrom(capture: bytes, i: nat): HelloSummary
    requires i <= |capture|
    decreases |capture| - i
  {
    if i == |capture| then HelloSummary([], [])
    else
      var found, rest := HelloAt(capture, i), HellosFrom(capture, i + 1);
      HelloSummary(Clients(found) + rest.clientHellos, Servers(found) + rest.serverHellos)
  }

  function Summarize(capture: bytes): HelloSummary {
    HellosFrom(capture, 0)
  }

  /** One match of the scan: a parser may refuse it, but only with the `ValueError` the scan catches. */
  method ReadMatch(capture: bytes, i: nat) returns (found: Found)
    requires MarkerAt(capture, i)
    ensures found == HelloAt(capture, i)
  {
    hide ReadClientHello, ReadServerHello;
    var record := capture[i..];
    found := Nothing;
    if |record| < 6 {
      return;
    }
    if record[5] == TLS_CLIENT_HELLO {
      var view := ClientHello(record);
      ClientHelloRaises(record);
      assert view.Err? ==> view == Err(ValueError);
      if view.Ok? {
        found := Client(view.value);
      }
    } else if record[5] == TLS_SERVER_HELLO {
      var view := ServerHello(record);
      ServerHelloRaises(record);
      assert view.Err? ==> view == Err(ValueError);
      if view.Ok? {
        found := Server(view.value);
      }
    }
  }

  /** `summarize_hellos`.  Matches do not overlap, so a match moves the scan three bytes on; this sees every
      hello that trying each single offset would see. */
  method SummarizeHellos(capture: bytes) returns (summary: HelloSummary)
    ensures summary == Summarize(capture)
  {
    hide HelloAt, HellosFrom, Clients, Servers;
    var clients: seq<ClientView>, servers: seq<ServerView> := [], [];
    var i := 0;
    while i < |capture|
      invariant 0 <= i <= |capture|
      invariant clients + HellosFrom(capture, i).clientHellos == Summarize(capture).clientHellos
      invariant servers + HellosFrom(capture, i).serverHellos == Summarize(capture).serverHellos
    {
      if MarkerAt(capture, i) {
        SkipMatch(capture, i);
        var found := ReadMatch(capture, i);
        ghost var rest := HellosFrom(capture, i + 3);
        assert clients + (Clients(found) + rest.clientHellos) == (clients + Clients(found)) + rest.clientHellos;
        assert servers + (Servers(found) + rest.serverHellos) == (servers + Servers(found)) + rest.serverHellos;
        clients, servers := clients + Clients(found), servers + Servers(found);
        i := i + 3;
      } else {
        NoHello(capture, i);
        i := i + 1;
      }
    }
    NoMoreHellos(capture);
    assert clients + [] == clients && servers + [] == servers;
    return HelloSummary(clients, servers);
  }

  lemma NoMoreHellos(capture: bytes)
    ensures HellosFrom(capture, |capture|) == HelloSummary([], [])
  {
  }

  lemma NoHello(capture: bytes, i: nat)
    requires i < |capture| && !MarkerAt(capture, i)
    ensures HelloAt(capture, i) == Nothing
    ensures HellosFrom(capture, i) == HellosFrom(capture, i + 1)
  {
    hide ReadClientHello, ReadServerHello;
  }

  /** No match starts on the second or third byte of a match. */
  lemma SkipMatch(capture: bytes, i: nat)
    requires MarkerAt(capture, i)
    ensures var rest := HellosFrom(capture, i + 3);
            && HellosFrom(capture, i).clientHellos == Clients(HelloAt(capture, i)) + rest.clientHellos
            && HellosFrom(capture, i).serverHellos == Servers(HelloAt(capture, i)) + rest.serverHellos
  {
    hide HelloAt;
    NoHello(capture, i + 1);
    NoHello(capture, i + 2);
  }
}

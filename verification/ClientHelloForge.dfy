/** `find_key_share` and `forge_pq_component`: locating key shares by offset, and complementing the
    post-quantum half of one of them in place. */
module ClientHelloForge {
  import opened Bytes
  import opened Tlvs
  import opened Extensions
  import opened ClientHelloFrame
  import opened ClientHelloStrip

  // ---- locating shares

  datatype Share = Share(group: nat, offset: nat, length: nat)

  predicate SharesOk(ts: seq<Tlv>) {
    forall i :: 0 <= i < |ts| && ts[i].tag == TLS_KEY_SHARE ==> Decode(ts[i]).Ok?
  }

  function Entries(t: Tlv): seq<Tlv>
    requires t.tag == TLS_KEY_SHARE && Decode(t).Ok?
  {
    Decode(t).value.shares
  }

  /** Where the values of a list printed at offset `base` lie. */
  function EntryTriples(es: seq<Tlv>, base: nat): seq<Share> {
    if es == [] then []
    else [Share(es[0].tag, base + 4, |es[0].value|)] + EntryTriples(es[1..], base + 4 + |es[0].value|)
  }

  /** Where the shares of an extension block printed at offset `base` lie. */
  function ShareTriples(ts: seq<Tlv>, base: nat): seq<Share>
    requires SharesOk(ts)
  {
    if ts == [] then []
    else (if ts[0].tag == TLS_KEY_SHARE then EntryTriples(Entries(ts[0]), base + 6) else [])
         + ShareTriples(ts[1..], base + 4 + |ts[0].value|)
  }

  function FindShares(record: bytes): Result<seq<Share>> {
    var ts :- ExtensionTlvs(record);
    if SharesOk(ts) then Ok(ShareTriples(ts, Bounds(record).0)) else Err(ValueError)
  }

  lemma FindSharesRaises(record: bytes)
    ensures FindShares(record).Err? ==> FindShares(record) == Err(ValueError)
  {
    hide ClientHelloExtensions, FrameOf, ShareTriples;
    if Located(record) {
      PrintParse(FrameOf(record).block);
    }
  }

  /** Shares are located in every record whose extension list is complete and whose extensions 0x0033 are vectors of
      entries, each as long as its own length says; nothing else is asked of it. */
  lemma LocatedOnTheWire(record: bytes)
    ensures FindShares(record).Ok? <==>
              && Located(record) && ParseTlvs(FrameOf(record).block).Ok?
              && forall t :: t in ParseTlvs(FrameOf(record).block).value && t.tag == 0x0033 ==>
                   |t.value| >= 2 && U16(t.value, 0) == |t.value| - 2 && ParseTlvs(t.value[2..]).Ok?
  {
    hide ClientHelloExtensions, FrameOf, ParseTlvs, ShareTriples;
    if Located(record) && ParseTlvs(FrameOf(record).block).Ok? {
      var ts := ParseTlvs(FrameOf(record).block).value;
      assert forall i :: 0 <= i < |ts| ==> ts[i] in ts;
    }
  }

  /** The first share of group `g`, if there is one. */
  function First(shares: seq<Share>, g: int): Option<Share> {
    if shares == [] then None
    else if shares[0].group == g then Some(shares[0])
    else First(shares[1..], g)
  }

  lemma {:induction false} FirstIsFirst(shares: seq<Share>, i: nat)
    requires i < |shares| && forall j :: 0 <= j < i ==> shares[j].group != shares[i].group
    ensures First(shares, shares[i].group) == Some(shares[i])
  {
    if i > 0 {
      FirstIsFirst(shares[1..], i - 1);
    }
  }

  lemma {:induction false} FirstConcat(a: seq<Share>, b: seq<Share>, g: int)
    ensures First(a + b, g) == if First(a, g).Some? then First(a, g) else First(b, g)
  {
    if a == [] {
      assert a + b == b;
    } else {
      assert (a + b)[1..] == a[1..] + b;
      FirstConcat(a[1..], b, g);
    }
  }

  lemma {:induction false} EntryTriplesSnoc(es: seq<Tlv>, e: Tlv, base: nat)
    ensures EntryTriples(es + [e], base)
            == EntryTriples(es, base) + [Share(e.tag, base + |PrintTlvs(es)| + 4, |e.value|)]
  {
    hide PrintTlvs, PrintTlv;
    PrintNothing();
    if es == [] {
      assert es + [e] == [e];
    } else {
      assert (es + [e])[1..] == es[1..] + [e];
      PrintFirst(es);
      EntryTriplesSnoc(es[1..], e, base + 4 + |es[0].value|);
    }
  }

  lemma {:induction false} ShareTriplesSnoc(ts: seq<Tlv>, t: Tlv, base: nat)
    requires SharesOk(ts + [t])
    ensures SharesOk(ts) && t == (ts + [t])[|ts|]
    ensures ShareTriples(ts + [t], base)
            == ShareTriples(ts, base)
               + if t.tag == TLS_KEY_SHARE then EntryTriples(Entries(t), base + |PrintTlvs(ts)| + 6) else []
  {
    hide PrintTlvs, PrintTlv, Decode, EntryTriples;
    PrintNothing();
    assert forall i :: 0 <= i < |ts| ==> (ts + [t])[i] == ts[i];
    if ts == [] {
      assert ts + [t] == [t];
    } else {
      assert (ts + [t])[1..] == ts[1..] + [t];
      PrintFirst(ts);
      ShareTriplesSnoc(ts[1..], t, base + 4 + |ts[0].value|);
    }
  }

  /** The inner loop of `find_key_share`, over one key_share extension. */
  method ReadShares(record: bytes, extensionStart: nat, extensionEnd: nat) returns (r: Result<seq<Share>>)
    requires extensionStart <= extensionEnd <= |record| && extensionEnd - extensionStart < 0x1_0000
    ensures var t := Tlv(TLS_KEY_SHARE, record[extensionStart..extensionEnd]);
            r == if Decode(t).Err? then Err(ValueError) else Ok(EntryTriples(Entries(t), extensionStart + 2))
  {
    hide ParseTlvs, EntryTriples, PrintTlvs, NextTlv;
    ghost var payload := record[extensionStart..extensionEnd];
    EncodeDecode(Tlv(TLS_KEY_SHARE, payload));
    var length :- ReadU16(record, extensionStart);
    var keyShareEnd := extensionStart + 2 + length;
    var entryCursor := extensionStart + 2;
    if keyShareEnd != extensionEnd {
      return Err(ValueError);
    }
    assert Vector(payload) && payload[2..] == record[entryCursor..keyShareEnd];
    var shares: seq<Share> := [];
    ghost var done: seq<Tlv> := [];
    PrependNothing(ParseTlvs(payload[2..]));
    NoTriples(extensionStart + 2);
    while entryCursor < keyShareEnd
      invariant extensionStart + 2 <= entryCursor <= keyShareEnd
      invariant entryCursor == extensionStart + 2 + |PrintTlvs(done)|
      invariant ParseTlvs(payload[2..]) == Prepend(done, ParseTlvs(record[entryCursor..keyShareEnd]))
      invariant shares == EntryTriples(done, extensionStart + 2)
    {
      ParseAt(record, entryCursor, keyShareEnd);
      var entry :- NextTlv(record, entryCursor, keyShareEnd);
      var valueOffset := entryCursor + 4;
      PrependTwice(done, [entry], ParseTlvs(record[valueOffset + |entry.value|..keyShareEnd]));
      EntryTriplesSnoc(done, entry, extensionStart + 2);
      PrintSnoc(done, entry);
      shares := shares + [Share(entry.tag, valueOffset, |entry.value|)];
      done := done + [entry];
      entryCursor := valueOffset + |entry.value|;
    }
    ParseEnd(record, keyShareEnd, done);
    return Ok(shares);
  }

  lemma NoTriples(base: nat)
    ensures EntryTriples([], base) == [] && PrintTlvs([]) == []
    ensures SharesOk([]) && ShareTriples([], base) == []
  {
  }

  lemma BadShare(done: seq<Tlv>, t: Tlv, rest: Result<seq<Tlv>>)
    ensures t.tag == TLS_KEY_SHARE && Decode(t).Err? && rest.Ok? ==> !SharesOk(done + [t] + rest.value)
    ensures SharesOk(done) && (t.tag == TLS_KEY_SHARE ==> Decode(t).Ok?) ==> SharesOk(done + [t])
  {
    if rest.Ok? {
      assert (done + [t] + rest.value)[|done|] == t;
    }
  }

  /** `find_key_share`. */
  method FindKeyShare(record: bytes) returns (r: Result<seq<Share>>)
    ensures r == FindShares(record)
  {
    hide ParseTlvs, ShareTriples, EntryTriples, PrintTlvs, NextTlv, Decode, SharesOk, ClientHelloExtensions;
    LocatorExact(record, 0, 0);
    var bounds :- ClientHelloExtensions(record);
    var (extensionsStart, extensionsEnd) := bounds;
    LocatorExact(record, extensionsStart, extensionsEnd);
    ghost var block := record[extensionsStart..extensionsEnd];
    var cursor := extensionsStart;
    var shares: seq<Share> := [];
    ghost var done: seq<Tlv> := [];
    PrependNothing(ParseTlvs(block));
    PrintParse(block);
    NoTriples(extensionsStart);
    while cursor < extensionsEnd
      invariant extensionsStart <= cursor <= extensionsEnd
      invariant cursor == extensionsStart + |PrintTlvs(done)|
      invariant ParseTlvs(block) == Prepend(done, ParseTlvs(record[cursor..extensionsEnd]))
      invariant SharesOk(done)
      invariant shares == ShareTriples(done, extensionsStart)
    {
      ParseAt(record, cursor, extensionsEnd);
      var t :- NextTlv(record, cursor, extensionsEnd);
      var extensionEnd := cursor + 4 + |t.value|;
      ghost var rest := ParseTlvs(record[extensionEnd..extensionsEnd]);
      PrependTwice(done, [t], rest);
      BadShare(done, t, rest);
      PrintAt(record, cursor, extensionsEnd);
      if t.tag == TLS_KEY_SHARE {
        ValueAt(record, cursor, extensionsEnd);
        var entries :- ReadShares(record, cursor + 4, extensionEnd);
        shares := shares + entries;
      }
      ShareTriplesSnoc(done, t, extensionsStart);
      PrintSnoc(done, t);
      done := done + [t];
      cursor := extensionEnd;
    }
    ParseEnd(record, extensionsEnd, done);
    return Ok(shares);
  }

  lemma ValueAt(d: bytes, c: nat, end: nat)
    requires end <= |d| && NextTlv(d, c, end).Ok?
    ensures var t := NextTlv(d, c, end).value;
            c + 4 + |t.value| <= end && t.value == d[c + 4..c + 4 + |t.value|]
  {
  }

  // ---- forging

  /** `PQ_COMPONENTS`: offset and length of the post-quantum part in the share of a hybrid group. */
  function PqComponent(g: int): Result<(nat, nat)> {
    if g == 0x11EC then Ok((0, 1184))
    else if g == 0x6399 then Ok((32, 1184))
    else Err(KeyError)
  }

  /** The value of the first entry tagged `g`, flipped. */
  function ForgeEntries(es: seq<Tlv>, g: int, o: nat, n: nat): seq<Tlv> {
    if es == [] then []
    else if es[0].tag == g then
      (if o + n <= |es[0].value| then [Tlv(es[0].tag, Flip(es[0].value, o, n))] else [es[0]]) + es[1..]
    else [es[0]] + ForgeEntries(es[1..], g, o, n)
  }

  lemma {:induction false} EntriesLayout(es: seq<Tlv>, base: nat, g: int, o: nat, n: nat)
    ensures First(EntryTriples(es, base), g).Some? <==> HasTag(es, g)
    ensures EntryTriples(ForgeEntries(es, g, o, n), base) == EntryTriples(es, base)
    ensures |PrintTlvs(ForgeEntries(es, g, o, n))| == |PrintTlvs(es)|
    ensures var s := First(EntryTriples(es, base), g);
            s.Some? ==>
              && s.value.group == g
              && base <= s.value.offset && s.value.offset + s.value.length <= base + |PrintTlvs(es)|
              && (o + n <= s.value.length ==>
                    PrintTlvs(ForgeEntries(es, g, o, n)) == Flip(PrintTlvs(es), s.value.offset - base + o, n))
  {
    hide PrintTlvs, PrintTlv, Flip;
    if es != [] {
      var e, rest := es[0], es[1..];
      var forged := ForgeEntries(es, g, o, n);
      assert es == [e] + rest;
      WithoutTagCons(e, rest, g);
      PrintFirst(es);
      PrintFirst(forged);
      if e.tag == g {
        assert forged[1..] == rest;
        if o + n <= |e.value| {
          FlipEntry(e, PrintTlvs(rest), o, n);
        }
      } else {
        var next := base + 4 + |e.value|;
        EntriesLayout(rest, next, g, o, n);
        assert forged[1..] == ForgeEntries(rest, g, o, n);
        var s := First(EntryTriples(rest, next), g);
        if s.Some? && o + n <= s.value.length {
          FlipAfter(PrintTlv(e), PrintTlvs(rest), s.value.offset - next + o, n);
        }
      }
    }
  }

  lemma FlipEntry(e: Tlv, rest: bytes, o: nat, n: nat)
    requires o + n <= |e.value|
    ensures |PrintTlv(e)| == 4 + |e.value|
    ensures PrintTlv(Tlv(e.tag, Flip(e.value, o, n))) + rest == Flip(PrintTlv(e) + rest, 4 + o, n)
  {
    hide B2;
    FlipInside(B2(e.tag) + B2(|e.value|), e.value, rest, o, n);
  }

  lemma FlipAfter(a: bytes, b: bytes, o: nat, n: nat)
    requires o + n <= |b|
    ensures Flip(a + b, |a| + o, n) == a + Flip(b, o, n)
  {
  }

  function ForgeTlv(t: Tlv, g: int, o: nat, n: nat): Tlv
    requires t.tag == TLS_KEY_SHARE && Decode(t).Ok?
  {
    EncodeDecode(t);
    EntriesLayout(Entries(t), 0, g, o, n);
    Encode(KeyShares(ForgeEntries(Entries(t), g, o, n)))
  }

  lemma TlvLayout(t: Tlv, base: nat, g: int, o: nat, n: nat)
    requires t.tag == TLS_KEY_SHARE && Decode(t).Ok?
    ensures var u, s := ForgeTlv(t, g, o, n), First(EntryTriples(Entries(t), base + 6), g);
            && u.tag == t.tag && |u.value| == |t.value|
            && Decode(u) == Ok(KeyShares(ForgeEntries(Entries(t), g, o, n)))
            && (s.Some? ==>
                  && base <= s.value.offset && s.value.offset + s.value.length <= base + |PrintTlv(t)|
                  && (o + n <= s.value.length ==>
                        PrintTlv(u) == Flip(PrintTlv(t), s.value.offset - base + o, n)))
  {
    hide B2, Flip, ParseTlvs, PrintTlvs, ForgeEntries, EntryTriples, First;
    var u, es := ForgeTlv(t, g, o, n), Entries(t);
    EncodeDecode(t);
    EntriesLayout(es, 0, g, o, n);
    EntriesLayout(es, base + 6, g, o, n);
    DecodeEncode(KeyShares(ForgeEntries(es, g, o, n)));
    var s := First(EntryTriples(es, base + 6), g);
    if s.Some? && o + n <= s.value.length {
      var head := B2(t.tag) + B2(|t.value|) + B2(|PrintTlvs(es)|);
      assert PrintTlv(t) == head + PrintTlvs(es);
      assert PrintTlv(u) == head + PrintTlvs(ForgeEntries(es, g, o, n));
      FlipAfter(head, PrintTlvs(es), s.value.offset - base - 6 + o, n);
    }
  }

  predicate Offers(t: Tlv, g: int)
    requires t.tag == TLS_KEY_SHARE ==> Decode(t).Ok?
  {
    t.tag == TLS_KEY_SHARE && HasTag(Entries(t), g)
  }

  /** The first share of `g` in an extension list, flipped. */
  function ForgeTlvs(ts: seq<Tlv>, g: int, o: nat, n: nat): seq<Tlv>
    requires SharesOk(ts)
  {
    if ts == [] then []
    else if Offers(ts[0], g) then [ForgeTlv(ts[0], g, o, n)] + ts[1..]
    else [ts[0]] + ForgeTlvs(ts[1..], g, o, n)
  }

  /** Flipping bytes at the located offset is flipping the value of the first share, and moves nothing. */
  lemma {:induction false} BlockLayout(ts: seq<Tlv>, base: nat, g: int, o: nat, n: nat)
    requires SharesOk(ts)
    ensures var us, s := ForgeTlvs(ts, g, o, n), First(ShareTriples(ts, base), g);
            && SharesOk(us) && ShareTriples(us, base) == ShareTriples(ts, base)
            && |PrintTlvs(us)| == |PrintTlvs(ts)|
            && (s.Some? ==>
                  && base <= s.value.offset && s.value.offset + s.value.length <= base + |PrintTlvs(ts)|
                  && (o + n <= s.value.length ==>
                        PrintTlvs(us) == Flip(PrintTlvs(ts), s.value.offset - base + o, n)))
  {
    hide PrintTlvs, PrintTlv, Flip, Decode, EntryTriples, ForgeEntries, First, HasTag, ForgeTlv;
    if ts == [] {
      NoFirst(g);
    } else {
      var t, rest, next := ts[0], ts[1..], base + 4 + |ts[0].value|;
      var us := ForgeTlvs(ts, g, o, n);
      PrintFirst(ts);
      PrintFirst(us);
      BlockLayout(rest, next, g, o, n);
      var here := if t.tag == TLS_KEY_SHARE then EntryTriples(Entries(t), base + 6) else [];
      FirstConcat(here, ShareTriples(rest, next), g);
      if t.tag == TLS_KEY_SHARE {
        TlvLayout(t, base, g, o, n);
        EntriesLayout(Entries(t), base + 6, g, o, n);
      } else {
        NoFirst(g);
      }
      var s := First(ShareTriples(ts, base), g);
      if Offers(t, g) {
        assert us[1..] == rest;
        if o + n <= s.value.length {
          FlipBefore(PrintTlv(t), PrintTlvs(rest), s.value.offset - base + o, n);
        }
      } else {
        assert us[1..] == ForgeTlvs(rest, g, o, n);
        if s.Some? && o + n <= s.value.length {
          FlipAfter(PrintTlv(t), PrintTlvs(rest), s.value.offset - next + o, n);
        }
      }
    }
  }

  lemma NoFirst(g: int)
    ensures First([], g) == None && PrintTlvs([]) == []
  {
  }

  lemma FlipBefore(a: bytes, b: bytes, o: nat, n: nat)
    requires o + n <= |a|
    ensures Flip(a + b, o, n) == Flip(a, o, n) + b
  {
  }

  /** The byte range that forging `g` complements: start and length. */
  function Target(record: bytes, g: int): Result<(nat, nat)> {
    var (o, n) :- PqComponent(g);
    var shares :- FindShares(record);
    match First(shares, g)
    case None => Err(ValueError)
    case Some(s) => if o + n > s.length then Err(ValueError) else Ok((s.offset + o, n))
  }

  lemma TargetInBlock(record: bytes, g: int)
    requires Target(record, g).Ok?
    ensures Located(record)
    ensures var (start, count) := Target(record, g).value;
            Bounds(record).0 <= start && start + count <= Bounds(record).1
  {
    hide ParseTlvs, PrintTlvs, First, ShareTriples, ClientHelloExtensions, ForgeTlvs;
    var ts := ExtensionTlvs(record).value;
    var (o, n) := PqComponent(g).value;
    PrintParse(FrameOf(record).block);
    BlockLayout(ts, Bounds(record).0, g, o, n);
  }

  /** What `forge_pq_component` returns. */
  function Forge(record: bytes, g: int): Result<bytes> {
    var (start, count) :- Target(record, g);
    TargetInBlock(record, g);
    Ok(Flip(record, start, count))
  }

  /** `forge_pq_component`. */
  method ForgePqComponent(record: bytes, g: int) returns (r: Result<bytes>)
    ensures r == Forge(record, g)
  {
    hide FindShares, ClientHelloExtensions, Flip;
    var component :- PqComponent(g);
    var (pqOffset, pqLength) := component;
    var shares :- FindKeyShare(record);
    var i := 0;
    while i < |shares| && shares[i].group != g
      invariant 0 <= i <= |shares|
      invariant First(shares[i..], g) == First(shares, g)
    {
      i := i + 1;
    }
    if i == |shares| {
      return Err(ValueError);
    }
    var target := shares[i];
    if pqOffset + pqLength > target.length {
      return Err(ValueError);
    }
    TargetInBlock(record, g);
    var forged := FlipCopy(record, target.offset + pqOffset, pqLength);
    return Ok(forged);
  }

  lemma FlipBlock(f: Frame, o: nat, n: nat)
    requires f.Valid() && o + n <= |f.block|
    ensures f.Start() + o + n <= |f.Print()|
    ensures var out := f.(block := Flip(f.block, o, n));
            out.Valid() && out.Start() == f.Start() && out.Print() == Flip(f.Print(), f.Start() + o, n)
  {
    hide B2, B3, Flip;
    var out := f.(block := Flip(f.block, o, n));
    assert out.Head() == f.Head() && out.Prefix() == f.Prefix() && out.Rest() == f.Rest();
    FlipInside(f.Head() + f.Prefix() + B2(|f.block|), f.block, f.Rest(), o, n);
  }

  /** A forged record has the frame of the original around the forged extension list. */
  lemma FrameOfForged(record: bytes, g: int)
    requires Target(record, g).Ok?
    ensures Located(record) && ExtensionTlvs(record).Ok? && SharesOk(ExtensionTlvs(record).value)
    ensures var (o, n) := PqComponent(g).value;
            var us, out := ForgeTlvs(ExtensionTlvs(record).value, g, o, n), Forge(record, g).value;
            && ClientHelloExtensions(out) == ClientHelloExtensions(record)
            && |PrintTlvs(us)| == |FrameOf(record).block|
            && FrameOf(out) == FrameOf(record).(block := PrintTlvs(us)) && ExtensionTlvs(out) == Ok(us)
  {
    hide ParseTlvs, PrintTlvs, First, ShareTriples, ClientHelloExtensions, ForgeTlvs, Flip, Frame.Print, Frame.Valid,
         SharesOk, FrameOf;
    var ts, f := ExtensionTlvs(record).value, FrameOf(record);
    var (o, n) := PqComponent(g).value;
    var us := ForgeTlvs(ts, g, o, n);
    var (start, count) := Target(record, g).value;
    PrintFrameOf(record);
    PrefixOfFrame(record);
    PrintParse(f.block);
    TargetInBlock(record, g);
    BlockLayout(ts, f.Start(), g, o, n);
    FlipBlock(f, start - f.Start(), n);
    FrameOfPrint(f);
    FrameOfPrint(f.(block := PrintTlvs(us)));
    ParsePrint(us);
  }

  /** Forging complements exactly the targeted bytes and leaves every located offset and length alone. */
  lemma ForgeFraming(record: bytes, g: int)
    requires Target(record, g).Ok?
    ensures var out, (start, count) := Forge(record, g).value, Target(record, g).value;
            && count > 0 && |out| == |record| && start + count <= |record|
            && (forall i :: 0 <= i < |record| ==>
                  out[i] == if start <= i < start + count then Complement(record[i]) else record[i])
            && ClientHelloExtensions(out) == ClientHelloExtensions(record)
            && FindShares(out) == FindShares(record) && out != record
  {
    hide ParseTlvs, PrintTlvs, First, ShareTriples, ClientHelloExtensions, ForgeTlvs, FrameOf;
    var ts := ExtensionTlvs(record).value;
    var (o, n) := PqComponent(g).value;
    FrameOfForged(record, g);
    TargetInBlock(record, g);
    BlockLayout(ts, Bounds(record).0, g, o, n);
    var start := Target(record, g).value.0;
    assert Forge(record, g).value[start] == Complement(record[start]);
  }

  /** Which half of the first share changes.  In an X25519MLKEM768 share the first 1184 bytes do and the X25519 half
      after them does not; in an X25519Kyber768Draft00 share the X25519 half comes first and does not.  Any other
      group raises `KeyError`. */
  lemma ForgeKeepsClassicalHalf(record: bytes, g: int)
    ensures g != 0x11EC && g != 0x6399 <==> Forge(record, g) == Err(KeyError)
    ensures Forge(record, g).Ok? ==>
              && FindShares(record).Ok? && First(FindShares(record).value, g).Some?
              && var out, s := Forge(record, g).value, First(FindShares(record).value, g).value;
              && s.offset + s.length <= |record| == |out|
              && var before, after := record[s.offset..s.offset + s.length], out[s.offset..s.offset + s.length];
              && (g == 0x11EC ==> s.length >= 1184 && after == Flip(before[..1184], 0, 1184) + before[1184..])
              && (g == 0x6399 ==>
                    s.length >= 1216 && after == before[..32] + Flip(before[32..1216], 0, 1184) + before[1216..])
  {
    hide FindShares, ClientHelloExtensions, First, Flip;
    FindSharesRaises(record);
    if Forge(record, g).Ok? {
      ShareInBounds(record, g);
      var s := First(FindShares(record).value, g).value;
      var (start, count) := Target(record, g).value;
      var before := record[s.offset..s.offset + s.length];
      FlipSlice(record, start, count, s.offset, s.offset + s.length);
      FlipParts(before, start - s.offset, count);
      assert before[..0] == [] && [] + Flip(before[0..1184], 0, 1184) == Flip(before[..1184], 0, 1184);
    }
  }

  lemma ShareInBounds(record: bytes, g: int)
    requires FindShares(record).Ok? && First(FindShares(record).value, g).Some?
    ensures var s := First(FindShares(record).value, g).value;
            s.offset + s.length <= |record|
  {
    hide ParseTlvs, PrintTlvs, First, ShareTriples, ClientHelloExtensions, ForgeTlvs;
    PrintParse(FrameOf(record).block);
    BlockLayout(ExtensionTlvs(record).value, Bounds(record).0, g, 0, 0);
  }

  lemma ForgeInvolution(record: bytes, g: int)
    requires Target(record, g).Ok?
    ensures Forge(Forge(record, g).value, g) == Ok(record)
  {
    hide FindShares, ClientHelloExtensions, First, Flip;
    var (start, count) := Target(record, g).value;
    ForgeFraming(record, g);
    TargetInBlock(record, g);
    FlipTwice(record, start, count);
  }
}

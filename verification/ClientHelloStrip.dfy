/** `strip_hybrid`: removing one group from a ClientHello and re-serialising every enclosing length. */
module ClientHelloStrip {
  import opened Bytes
  import opened Tlvs
  import opened Extensions
  import opened ClientHelloFrame

  // ---- what a record says

  function ExtensionTlvs(record: bytes): Result<seq<Tlv>> {
    if !Located(record) then Err(ValueError) else ParseTlvs(FrameOf(record).block)
  }

  /** The decoded extension list of a record, when every layer is well formed. */
  function Meaning(record: bytes): Result<seq<Extension>> {
    var ts :- ExtensionTlvs(record);
    if Decodable(ts) then Ok(DecodeAll(ts)) else Err(ValueError)
  }

  lemma MeaningPrints(record: bytes)
    ensures Meaning(record).Ok? ==>
              AllFit(Meaning(record).value) && PrintTlvs(EncodeAll(Meaning(record).value)) == FrameOf(record).block
    ensures Meaning(record).Err? ==> Meaning(record) == Err(ValueError)
  {
    if Located(record) {
      PrintParse(FrameOf(record).block);
      if Meaning(record).Ok? {
        EncodeDecodeAll(ExtensionTlvs(record).value);
      }
    }
  }

  predicate Smaller(f: Frame, xs: seq<Extension>) {
    AllFit(xs) && |PrintTlvs(EncodeAll(xs))| <= |f.block|
  }

  /** The frame with its extensions replaced and nothing between the block and the end of the record. */
  function Rewrite(f: Frame, xs: seq<Extension>): Frame
    requires Smaller(f, xs)
  {
    f.(block := PrintTlvs(EncodeAll(xs)), hsSlack := [], recSlack := [])
  }

  lemma MeaningOfRewrite(f: Frame, xs: seq<Extension>)
    requires f.Valid() && Smaller(f, xs)
    ensures Rewrite(f, xs).Valid()
    ensures var out := Rewrite(f, xs).Print();
            Located(out) && FrameOf(out) == Rewrite(f, xs) && Meaning(out) == Ok(xs)
  {
    FrameOfPrint(Rewrite(f, xs));
    ParsePrint(EncodeAll(xs));
    DecodeEncodeAll(xs);
  }

  lemma RemovalIsSmaller(record: bytes, g: int)
    requires Meaning(record).Ok?
    ensures FrameOf(record).Valid()
    ensures Smaller(FrameOf(record), RemoveAll(Meaning(record).value, g))
  {
    PrintFrameOf(record);
    MeaningPrints(record);
    RemoveAllSize(Meaning(record).value, g);
  }

  /** What `strip_hybrid` returns, read off the meaning of the record. */
  function Strip(record: bytes, g: int): Result<bytes> {
    var xs :- Meaning(record);
    if !AnyMentions(xs, g) then Ok(record) else
    RemovalIsSmaller(record, g);
    Ok(Rewrite(FrameOf(record), RemoveAll(xs, g)).Print())
  }

  // ---- properties of the rewriter

  /** Whether the rewriter raises depends on the record only, and it raises `ValueError` only. */
  lemma StripAcceptance(record: bytes, g: int)
    ensures Strip(record, g).Ok? <==> Meaning(record).Ok?
    ensures Strip(record, g).Err? ==> Strip(record, g) == Err(ValueError)
  {
    MeaningPrints(record);
  }

  /** The output says what the input said with `g` removed, around the same bytes. */
  lemma StripMeaning(record: bytes, g: int)
    requires Strip(record, g).Ok?
    ensures Meaning(record).Ok?
    ensures var out := Strip(record, g).value;
            && Meaning(out) == Ok(RemoveAll(Meaning(record).value, g))
            && FrameOf(out).Valid() && FrameOf(record).Valid()
            && FrameOf(out).version == FrameOf(record).version
            && FrameOf(out).Prefix() == FrameOf(record).Prefix()
            && FrameOf(out).tail == FrameOf(record).tail
    ensures !AnyMentions(RemoveAll(Meaning(record).value, g), g)
  {
    var xs := Meaning(record).value;
    MeaningPrints(record);
    PrintFrameOf(record);
    RemoveAllFits(xs, g);
    RemoveAllCommutes(xs, g, g);
    RemovalIsSmaller(record, g);
    MeaningOfRewrite(FrameOf(record), RemoveAll(xs, g));
  }

  /** A record is changed exactly when it names `g`.  The three nested ends of a changed record coincide, and
      the lost bytes are those of the removed groups and shares and the two slacks. */
  lemma StripLengths(record: bytes, g: int)
    requires Strip(record, g).Ok?
    ensures Meaning(record).Ok?
    ensures var out, xs, f := Strip(record, g).value, Meaning(record).value, FrameOf(record);
            && (out != record <==> AnyMentions(xs, g))
            && (out != record ==>
                  && Located(out)
                  && Bounds(out).1 == 9 + U24(out, 6) == 5 + U16(out, 3) == |out| - |f.tail|
                  && |record| == |out| + RemovedTotal(xs, g) + |f.hsSlack| + |f.recSlack|)
            && |out| <= |record| && (out != record ==> |out| < |record|)
  {
    var xs, f := Meaning(record).value, FrameOf(record);
    PrintFrameOf(record);
    MeaningPrints(record);
    RemovedTotalPositive(xs, g);
    RemoveAllSize(xs, g);
    RemovalIsSmaller(record, g);
    HeadFields(f);
    if AnyMentions(xs, g) {
      var out := Rewrite(f, RemoveAll(xs, g));
      MeaningOfRewrite(f, RemoveAll(xs, g));
      FrameOfPrint(out);
      HeadFields(out);
      StripMeaning(record, g);
      RemoveAllFits(xs, g);
    }
  }

  /** What an accepted record is on the wire: every extension 0x000A is a vector of ids and every extension 0x0033 a
      vector of entries, each as long as its own length says. */
  lemma AcceptedOnTheWire(record: bytes)
    ensures Meaning(record).Ok? <==>
              && Located(record) && ParseTlvs(FrameOf(record).block).Ok?
              && forall t :: t in ParseTlvs(FrameOf(record).block).value ==>
                   && (t.tag == 0x000A ==> |t.value| >= 2 && U16(t.value, 0) == |t.value| - 2 && |t.value| % 2 == 0)
                   && (t.tag == 0x0033 ==>
                         |t.value| >= 2 && U16(t.value, 0) == |t.value| - 2 && ParseTlvs(t.value[2..]).Ok?)
  {
    hide ClientHelloExtensions, FrameOf, ParseTlvs, ParseIds;
    if Located(record) && ParseTlvs(FrameOf(record).block).Ok? {
      var ts := ParseTlvs(FrameOf(record).block).value;
      assert forall i :: 0 <= i < |ts| ==> ts[i] in ts;
    }
  }

  /** Extension 0x000A keeps its ids other than `g` and extension 0x0033 its entries other than those of `g`, in order,
      under the same tag and exact lengths; any other extension keeps its bytes. */
  predicate ExtensionStripped(t: Tlv, u: Tlv, g: int) {
    && u.tag == t.tag
    && (t.tag != 0x000A && t.tag != 0x0033 ==> u == t)
    && (t.tag == 0x000A ==>
          && Vector(t.value) && Vector(u.value) && |t.value| % 2 == 0 && |u.value| % 2 == 0
          && ParseIds(u.value[2..]) == WithoutId(ParseIds(t.value[2..]), g)
          && g !in ParseIds(u.value[2..]))
    && (t.tag == 0x0033 ==>
          && Vector(t.value) && Vector(u.value)
          && ParseTlvs(t.value[2..]).Ok? && ParseTlvs(u.value[2..]).Ok?
          && ParseTlvs(u.value[2..]).value == WithoutTag(ParseTlvs(t.value[2..]).value, g)
          && forall e :: e in ParseTlvs(u.value[2..]).value ==> e.tag != g)
  }

  /** A strip on the wire, extension by extension. */
  lemma StripOnTheWire(record: bytes, g: int)
    requires Strip(record, g).Ok?
    ensures ExtensionTlvs(record).Ok? && ExtensionTlvs(Strip(record, g).value).Ok?
    ensures var ts, us := ExtensionTlvs(record).value, ExtensionTlvs(Strip(record, g).value).value;
            && |us| == |ts|
            && forall i :: 0 <= i < |ts| ==> ExtensionStripped(ts[i], us[i], g)
  {
    hide Strip, Decode, Remove, FrameOf, ClientHelloExtensions, ParseTlvs, ExtensionStripped;
    StripAcceptance(record, g);
    StripMeaning(record, g);
    var ts, us := ExtensionTlvs(record).value, ExtensionTlvs(Strip(record, g).value).value;
    forall i | 0 <= i < |ts|
      ensures Decode(ts[i]).Ok? && Decode(us[i]) == Ok(Remove(Decode(ts[i]).value, g))
    {
      assert DecodeAll(us)[i] == RemoveAll(DecodeAll(ts), g)[i];
    }
    forall i | 0 <= i < |ts|
      ensures ExtensionStripped(ts[i], us[i], g)
    {
      StrippedExtension(ts[i], us[i], g);
    }
  }

  lemma StrippedExtension(t: Tlv, u: Tlv, g: int)
    requires Decode(t).Ok? && Decode(u) == Ok(Remove(Decode(t).value, g))
    ensures ExtensionStripped(t, u, g)
  {
    hide ParseTlvs, ParseIds, WithoutId, WithoutTag;
    match Decode(t).value
    case Groups(ids) =>
      WithoutIdCommutes(ids, g, g);
    case KeyShares(shares) =>
      WithoutTagCommutes(shares, g, g);
      WithoutTagAbsent(WithoutTag(shares, g), g);
    case Other(_, _) =>
  }

  lemma StripIdempotent(record: bytes, g: int)
    requires Strip(record, g).Ok?
    ensures Strip(Strip(record, g).value, g) == Strip(record, g)
  {
    StripMeaning(record, g);
  }

  /** Two strips in a row, in closed form. */
  lemma StripTwice(record: bytes, g: int, h: int)
    requires Meaning(record).Ok?
    ensures Strip(record, g).Ok?
    ensures var xs, f := Meaning(record).value, FrameOf(record);
            var ys := RemoveAll(RemoveAll(xs, g), h);
            && f.Valid() && Smaller(f, ys) && Rewrite(f, ys).Valid()
            && Strip(Strip(record, g).value, h)
               == if AnyMentions(xs, g) || AnyMentions(xs, h) then Ok(Rewrite(f, ys).Print()) else Ok(record)
  {
    var xs, f := Meaning(record).value, FrameOf(record);
    var ys := RemoveAll(xs, g);
    MeaningPrints(record);
    RemovalIsSmaller(record, g);
    RemoveAllFits(xs, g);
    RemoveAllFits(ys, h);
    if AnyMentions(xs, g) {
      MeaningOfRewrite(f, ys);
      RemovalIsSmaller(Strip(record, g).value, h);
    } else {
      RemovalIsSmaller(record, h);
    }
  }

  lemma StripCommutes(record: bytes, g: int, h: int)
    requires Meaning(record).Ok?
    ensures Strip(record, g).Ok? && Strip(record, h).Ok?
    ensures Strip(Strip(record, g).value, h) == Strip(Strip(record, h).value, g)
  {
    StripTwice(record, g, h);
    StripTwice(record, h, g);
    RemoveAllCommutes(Meaning(record).value, g, h);
  }

  // ---- the rewriter itself

  /** The value of a payload after the rewriter is done with it. */
  function StripTlv(t: Tlv, g: int): Tlv
    requires Decode(t).Ok?
  {
    EncodeDecode(t);
    RemoveFits(Decode(t).value, g);
    Encode(Remove(Decode(t).value, g))
  }

  /** The two comprehensions of the supported_groups branch: every id, and the bytes of those kept. */
  method FilterGroups(payload: vec16, g: int) returns (groups: seq<u16>, retained: bytes)
    requires |payload| >= 2 && |payload| % 2 == 0
    ensures groups == ParseIds(payload[2..])
    ensures retained == PrintIds(WithoutId(groups, g))
  {
    hide WithoutId, B2;
    groups, retained := [], [];
    var index := 2;
    WithoutIdNothing(g);
    while index < |payload|
      invariant 2 <= index <= |payload| && index % 2 == 0
      invariant groups + ParseIds(payload[index..]) == ParseIds(payload[2..])
      invariant retained == PrintIds(WithoutId(groups, g))
    {
      var group := U16(payload, index);
      assert payload[index..][2..] == payload[index + 2..];
      assert ParseIds(payload[index..]) == [group] + ParseIds(payload[index + 2..]);
      WithoutIdSnoc(groups, group, g);
      if group != g {
        B2OfU16(payload, index);
        retained := retained + payload[index..index + 2];
      }
      groups := groups + [group];
      index := index + 2;
    }
  }

  /** The supported_groups branch: filter the ids, and re-encode the vector if one went. */
  method StripGroups(payload: vec16, g: int) returns (r: Result<(vec16, bool)>)
    ensures var t := Tlv(TLS_SUPPORTED_GROUPS, payload);
            r == if Decode(t).Err? then Err(ValueError)
                 else Ok((StripTlv(t, g).value, Mentions(Decode(t).value, g)))
  {
    hide B2, WithoutId, PrintIds, ParseIds;
    if |payload| < 2 {
      return Err(ValueError);
    }
    var groupsLength := U16(payload, 0);
    if groupsLength != |payload| - 2 || groupsLength % 2 != 0 {
      return Err(ValueError);
    }
    var groups, retained := FilterGroups(payload, g);
    WithoutIdSize(groups, g);
    EncodeDecode(Tlv(TLS_SUPPORTED_GROUPS, payload));
    if |retained| != 2 * |groups| {
      return Ok((B2(|retained|) + retained, true));
    }
    return Ok((payload, false));
  }

  /** The share loop of the key_share branch: the bytes of the entries kept, and whether one went. */
  method FilterShares(payload: vec16, g: int) returns (r: Result<(bytes, bool)>)
    requires |payload| >= 2
    ensures var shares := ParseTlvs(payload[2..]);
            r == if shares.Err? then Err(ValueError)
                 else Ok((PrintTlvs(WithoutTag(shares.value, g)), HasTag(shares.value, g)))
  {
    hide ParseTlvs, PrintTlvs, WithoutTag, PrintTlv, NextTlv, HasTag;
    var cursor := 2;
    var retained: bytes := [];
    var changed := false;
    ghost var done: seq<Tlv> := [];
    assert payload[2..] == payload[2..|payload|];
    PrependNothing(ParseTlvs(payload[2..]));
    PrintParse(payload[2..]);
    WithoutTagNothing(g);
    PrintNothing();
    while cursor < |payload|
      invariant 2 <= cursor <= |payload|
      invariant ParseTlvs(payload[2..]) == Prepend(done, ParseTlvs(payload[cursor..|payload|]))
      invariant retained == PrintTlvs(WithoutTag(done, g))
      invariant changed == HasTag(done, g)
    {
      ParseAt(payload, cursor, |payload|);
      var share :- NextTlv(payload, cursor, |payload|);
      var shareEnd := cursor + 4 + |share.value|;
      PrependTwice(done, [share], ParseTlvs(payload[shareEnd..|payload|]));
      WithoutTagSnoc(done, share, g);
      if share.tag != g {
        PrintAt(payload, cursor, |payload|);
        retained := retained + payload[cursor..shareEnd];
      } else {
        changed := true;
      }
      done := done + [share];
      cursor := shareEnd;
    }
    ParseEnd(payload, |payload|, done);
    return Ok((retained, changed));
  }

  /** The key_share branch: drop the matching entries and re-encode the vector in any case. */
  method StripShares(payload: vec16, g: int) returns (r: Result<(vec16, bool)>)
    ensures var t := Tlv(TLS_KEY_SHARE, payload);
            r == if Decode(t).Err? then Err(ValueError)
                 else Ok((StripTlv(t, g).value, Mentions(Decode(t).value, g)))
  {
    if |payload| < 2 {
      return Err(ValueError);
    }
    var sharesLength := U16(payload, 0);
    if sharesLength != |payload| - 2 {
      return Err(ValueError);
    }
    var retained :- FilterShares(payload, g);
    EncodeDecode(Tlv(TLS_KEY_SHARE, payload));
    WithoutTagSize(ParseTlvs(payload[2..]).value, g);
    return Ok((B2(|retained.0|) + retained.0, retained.1));
  }

  function StripTlvs(ts: seq<Tlv>, g: int): seq<Tlv>
    requires Decodable(ts)
  {
    seq(|ts|, i requires 0 <= i < |ts| => StripTlv(ts[i], g))
  }

  lemma StripTlvsMeaning(ts: seq<Tlv>, g: int)
    requires Decodable(ts)
    ensures AllFit(DecodeAll(ts)) && AllFit(RemoveAll(DecodeAll(ts), g))
    ensures StripTlvs(ts, g) == EncodeAll(RemoveAll(DecodeAll(ts), g))
    ensures |PrintTlvs(StripTlvs(ts, g))| <= |PrintTlvs(ts)|
  {
    EncodeDecodeAll(ts);
    RemoveAllSize(DecodeAll(ts), g);
  }

  /** One extension of the rewriting loop. */
  method StripExtension(t: Tlv, g: int) returns (r: Result<(vec16, bool)>)
    ensures r == if Decode(t).Err? then Err(ValueError)
                 else Ok((StripTlv(t, g).value, Mentions(Decode(t).value, g)))
  {
    if t.tag == TLS_SUPPORTED_GROUPS {
      r := StripGroups(t.value, g);
    } else if t.tag == TLS_KEY_SHARE {
      r := StripShares(t.value, g);
    } else {
      r := Ok((t.value, false));
    }
  }

  lemma NothingStripped(g: int)
    ensures Decodable([]) && PrintTlvs(StripTlvs([], g)) == [] && !AnyMentions(DecodeAll([]), g)
  {
  }

  lemma BadExtension(done: seq<Tlv>, t: Tlv, rest: Result<seq<Tlv>>)
    ensures Decode(t).Err? && rest.Ok? ==> !Decodable(done + [t] + rest.value)
  {
    if rest.Ok? {
      assert (done + [t] + rest.value)[|done|] == t;
    }
  }

  lemma ExtendLoop(done: seq<Tlv>, t: Tlv, g: int)
    requires Decodable(done) && Decode(t).Ok?
    ensures Decodable(done + [t]) && StripTlv(t, g).tag == t.tag
    ensures PrintTlvs(StripTlvs(done + [t], g)) == PrintTlvs(StripTlvs(done, g)) + PrintTlv(StripTlv(t, g))
    ensures AnyMentions(DecodeAll(done + [t]), g) <==> AnyMentions(DecodeAll(done), g) || Mentions(Decode(t).value, g)
  {
    hide PrintTlvs, PrintTlv, Decode, AnyMentions, Mentions;
    EncodeDecode(t);
    PrintSnoc(StripTlvs(done, g), StripTlv(t, g));
    assert StripTlvs(done + [t], g) == StripTlvs(done, g) + [StripTlv(t, g)];
    assert DecodeAll(done + [t]) == DecodeAll(done) + [Decode(t).value];
    SnocMentions(DecodeAll(done), Decode(t).value, g);
  }

  lemma SnocMentions(xs: seq<Extension>, x: Extension, g: int)
    ensures AnyMentions(xs + [x], g) <==> AnyMentions(xs, g) || Mentions(x, g)
  {
    if AnyMentions(xs, g) {
      var i :| 0 <= i < |xs| && Mentions(xs[i], g);
      assert (xs + [x])[i] == xs[i];
    }
    assert (xs + [x])[|xs|] == x;
  }

  /** The five concatenations at the end of the rewriter print the rewritten frame. */
  lemma Reserialise(record: bytes, block: vec16)
    requires Located(record) && |block| <= |FrameOf(record).block|
    ensures var f := FrameOf(record).(block := block, hsSlack := [], recSlack := []);
            var start := Bounds(record).0;
            var clientHello: bytes := record[9..start - 2] + B2(|block|) + block;
            && f.Valid() && |clientHello| == f.BodySize()
            && f.Print() == record[..3] + B2(4 + |clientHello|) + ([TLS_CLIENT_HELLO] + B3(|clientHello|) + clientHello)
                            + record[5 + U16(record, 3)..]
  {
    hide B2, B3, ClientHelloExtensions;
    PrefixOfFrame(record);
    var f := FrameOf(record).(block := block, hsSlack := [], recSlack := []);
    assert record[..3] == [TLS_HANDSHAKE] + record[1..3];
    assert f.Rest() == f.tail;
  }

  /** The extension loop of `strip_hybrid`: the new block, and whether it differs. */
  method RewriteExtensions(record: bytes, extensionsStart: nat, extensionsEnd: nat, g: int)
    returns (r: Result<(bytes, bool)>)
    requires extensionsStart <= extensionsEnd <= |record|
    ensures var ts := ParseTlvs(record[extensionsStart..extensionsEnd]);
            r == if ts.Err? || !Decodable(ts.value) then Err(ValueError)
                 else Ok((PrintTlvs(StripTlvs(ts.value, g)), AnyMentions(DecodeAll(ts.value), g)))
  {
    hide ParseTlvs, PrintTlvs, Decode, StripTlv, StripTlvs, NextTlv, DecodeAll, AnyMentions, Decodable, B2;
    ghost var block := record[extensionsStart..extensionsEnd];
    var extensions: bytes := [];
    var cursor := extensionsStart;
    var changed := false;
    ghost var done: seq<Tlv> := [];
    PrependNothing(ParseTlvs(block));
    PrintParse(block);
    NothingStripped(g);
    while cursor < extensionsEnd
      invariant extensionsStart <= cursor <= extensionsEnd
      invariant ParseTlvs(block) == Prepend(done, ParseTlvs(record[cursor..extensionsEnd]))
      invariant Decodable(done)
      invariant extensions == PrintTlvs(StripTlvs(done, g))
      invariant changed == AnyMentions(DecodeAll(done), g)
    {
      ParseAt(record, cursor, extensionsEnd);
      var t :- NextTlv(record, cursor, extensionsEnd);
      var extensionEnd := cursor + 4 + |t.value|;
      ghost var rest := ParseTlvs(record[extensionEnd..extensionsEnd]);
      PrependTwice(done, [t], rest);
      BadExtension(done, t, rest);
      var payload :- StripExtension(t, g);
      changed := changed || payload.1;
      ExtendLoop(done, t, g);
      extensions := extensions + (B2(t.tag) + B2(|payload.0|) + payload.0);
      done := done + [t];
      cursor := extensionEnd;
    }
    ParseEnd(record, extensionsEnd, done);
    return Ok((extensions, changed));
  }

  /** `strip_hybrid`. */
  method StripHybrid(record: bytes, g: int) returns (r: Result<bytes>)
    ensures r == Strip(record, g)
  {
    hide ParseTlvs, PrintTlvs, Decodable, DecodeAll, RemoveAll, EncodeAll, AnyMentions, StripTlvs, B2, B3,
         ClientHelloExtensions,
      Frame.Print;
    LocatorExact(record, 0, 0);
    var bounds :- ClientHelloExtensions(record);
    var (extensionsStart, extensionsEnd) := bounds;
    LocatorExact(record, extensionsStart, extensionsEnd);
    MeaningPrints(record);
    var rewritten :- RewriteExtensions(record, extensionsStart, extensionsEnd, g);
    var (extensions, changed) := rewritten;
    if !changed {
      return Ok(record);
    }
    StripTlvsMeaning(ExtensionTlvs(record).value, g);
    PrintParse(FrameOf(record).block);
    Reserialise(record, extensions);
    var clientHello: bytes := record[9..extensionsStart - 2] + B2(|extensions|) + extensions;
    var handshake: bytes := [TLS_CLIENT_HELLO] + B3(|clientHello|) + clientHello;
    var recordEnd := 5 + U16(record, 3);
    return Ok(record[..3] + B2(|handshake|) + handshake + record[recordEnd..]);
  }
}

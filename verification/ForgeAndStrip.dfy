/** How forging one group and stripping one group interact. */
module ForgeAndStrip {
  import opened Bytes
  import opened Tlvs
  import opened Extensions
  import opened ClientHelloFrame
  import opened ClientHelloStrip
  import opened ClientHelloForge

  // ---- forging, at the level of meaning

  predicate HasShare(x: Extension, g: int) {
    x.KeyShares? && HasTag(x.shares, g)
  }

  /** The first share of `g` in a decoded extension list, flipped. */
  function ForgeExtensions(xs: seq<Extension>, g: int, o: nat, n: nat): seq<Extension> {
    if xs == [] then []
    else if HasShare(xs[0], g) then [KeyShares(ForgeEntries(xs[0].shares, g, o, n))] + xs[1..]
    else [xs[0]] + ForgeExtensions(xs[1..], g, o, n)
  }

  function FirstEntry(es: seq<Tlv>, g: int): Option<Tlv> {
    if es == [] then None else if es[0].tag == g then Some(es[0]) else FirstEntry(es[1..], g)
  }

  /** The first share of `g` in a decoded extension list. */
  function FirstShare(xs: seq<Extension>, g: int): Option<Tlv> {
    if xs == [] then None
    else if HasShare(xs[0], g) then FirstEntry(xs[0].shares, g)
    else FirstShare(xs[1..], g)
  }

  lemma {:induction false} ForgedMeaning(ts: seq<Tlv>, g: int, o: nat, n: nat)
    requires SharesOk(ts)
    ensures Decodable(ForgeTlvs(ts, g, o, n)) <==> Decodable(ts)
    ensures Decodable(ts) ==> DecodeAll(ForgeTlvs(ts, g, o, n)) == ForgeExtensions(DecodeAll(ts), g, o, n)
  {
    hide Decode, ForgeTlv, ForgeEntries, HasTag;
    if ts != [] {
      var us := ForgeTlvs(ts, g, o, n);
      ForgedMeaning(ts[1..], g, o, n);
      DecodableFirst(ts);
      DecodableFirst(us);
      KindOf(ts[0]);
      if ts[0].tag == TLS_KEY_SHARE {
        TlvLayout(ts[0], 0, g, o, n);
      }
      if Offers(ts[0], g) {
        assert us[1..] == ts[1..];
      } else {
        assert us[1..] == ForgeTlvs(ts[1..], g, o, n);
      }
    }
  }

  lemma KindOf(t: Tlv)
    ensures Decode(t).Ok? ==> (Decode(t).value.KeyShares? <==> t.tag == TLS_KEY_SHARE)
  {
  }

  lemma DecodableFirst(ts: seq<Tlv>)
    requires ts != []
    ensures Decodable(ts) <==> Decode(ts[0]).Ok? && Decodable(ts[1..])
    ensures Decodable(ts) ==> DecodeAll(ts) == [Decode(ts[0]).value] + DecodeAll(ts[1..])
  {
    assert forall i :: 0 < i < |ts| ==> ts[i] == ts[1..][i - 1];
  }

  lemma {:induction false} ForgedEntries(es: seq<Tlv>, g: int, h: int, o: nat, n: nat)
    ensures HasTag(ForgeEntries(es, g, o, n), h) <==> HasTag(es, h)
    ensures WithoutTag(ForgeEntries(es, g, o, n), g) == WithoutTag(es, g)
    ensures g != h ==> ForgeEntries(WithoutTag(es, h), g, o, n) == WithoutTag(ForgeEntries(es, g, o, n), h)
    ensures g != h ==> FirstEntry(WithoutTag(es, h), g) == FirstEntry(es, g)
  {
    hide HasTag, Flip;
    if es != [] {
      var e, rest, forged := es[0], es[1..], ForgeEntries(es, g, o, n);
      var e', rest' := forged[0], forged[1..];
      assert es == [e] + rest && forged == [e'] + rest' && e'.tag == e.tag;
      ForgedEntries(rest, g, h, o, n);
      WithoutTagCons(e, rest, g);
      WithoutTagCons(e, rest, h);
      WithoutTagCons(e', rest', g);
      WithoutTagCons(e', rest', h);
      if e.tag == g {
        assert rest' == rest;
      } else {
        assert rest' == ForgeEntries(rest, g, o, n);
      }
      var kept := WithoutTag(es, h);
      if e.tag != h {
        assert kept[0] == e && kept[1..] == WithoutTag(rest, h);
      } else {
        assert kept == WithoutTag(rest, h);
      }
    }
  }

  lemma ForgedExtension(x: Extension, g: int, h: int, o: nat, n: nat)
    requires x.KeyShares?
    ensures var y := KeyShares(ForgeEntries(x.shares, g, o, n));
            && (Mentions(y, h) <==> Mentions(x, h)) && Remove(y, g) == Remove(x, g)
            && (g != h ==>
                  && (HasShare(Remove(x, h), g) <==> HasShare(x, g))
                  && KeyShares(ForgeEntries(Remove(x, h).shares, g, o, n)) == Remove(y, h)
                  && FirstEntry(Remove(x, h).shares, g) == FirstEntry(x.shares, g))
  {
    hide HasTag, WithoutTag, ForgeEntries, FirstEntry;
    ForgedEntries(x.shares, g, h, o, n);
    WithoutTagCommutes(x.shares, h, g);
  }

  /** Forging `g` is invisible once `g` is removed, and commutes with removing anything else. */
  lemma {:induction false} ForgedExtensions(xs: seq<Extension>, g: int, h: int, o: nat, n: nat)
    ensures AnyMentions(ForgeExtensions(xs, g, o, n), h) <==> AnyMentions(xs, h)
    ensures RemoveAll(ForgeExtensions(xs, g, o, n), g) == RemoveAll(xs, g)
    ensures g != h ==> ForgeExtensions(RemoveAll(xs, h), g, o, n) == RemoveAll(ForgeExtensions(xs, g, o, n), h)
    ensures g != h ==> FirstShare(RemoveAll(xs, h), g) == FirstShare(xs, g)
  {
    hide HasTag, WithoutTag, ForgeEntries, FirstEntry;
    if xs != [] {
      var x, rest, forged := xs[0], xs[1..], ForgeExtensions(xs, g, o, n);
      var y, rest' := forged[0], forged[1..];
      var kept := RemoveAll(xs, h);
      assert xs == [x] + rest && forged == [y] + rest' && kept[1..] == RemoveAll(rest, h);
      ForgedExtensions(rest, g, h, o, n);
      MentionsFirst(xs, h);
      MentionsFirst(forged, h);
      RemoveFirst(xs, g);
      RemoveFirst(forged, g);
      RemoveFirst(forged, h);
      if x.KeyShares? {
        ForgedExtension(x, g, h, o, n);
      }
      if HasShare(x, g) {
        assert rest' == rest;
      } else {
        assert rest' == ForgeExtensions(rest, g, o, n);
      }
    }
  }

  lemma MentionsFirst(xs: seq<Extension>, g: int)
    requires xs != []
    ensures AnyMentions(xs, g) <==> Mentions(xs[0], g) || AnyMentions(xs[1..], g)
  {
    if AnyMentions(xs[1..], g) {
      var i :| 0 <= i < |xs[1..]| && Mentions(xs[1..][i], g);
      assert Mentions(xs[i + 1], g);
    }
  }

  lemma RemoveFirst(xs: seq<Extension>, g: int)
    requires xs != []
    ensures RemoveAll(xs, g) == [Remove(xs[0], g)] + RemoveAll(xs[1..], g)
  {
  }

  // ---- forging, at the level of records

  lemma {:induction false} FirstEntryLocated(es: seq<Tlv>, base: nat, g: int)
    ensures var s, e := First(EntryTriples(es, base), g), FirstEntry(es, g);
            && (s.Some? <==> e.Some?) && (e.Some? <==> HasTag(es, g))
            && (s.Some? ==> s.value.length == |e.value.value|)
  {
    if es != [] {
      WithoutTagCons(es[0], es[1..], g);
      assert es == [es[0]] + es[1..];
      FirstEntryLocated(es[1..], base + 4 + |es[0].value|, g);
    }
  }

  lemma {:induction false} FirstShareLocated(ts: seq<Tlv>, base: nat, g: int)
    requires Decodable(ts)
    ensures SharesOk(ts)
    ensures var s, e := First(ShareTriples(ts, base), g), FirstShare(DecodeAll(ts), g);
            (s.Some? <==> e.Some?) && (s.Some? ==> s.value.length == |e.value.value|)
  {
    hide Decode, EntryTriples, First, FirstEntry, HasTag;
    if ts == [] {
      NoFirst(g);
    } else {
      var t, rest, next := ts[0], ts[1..], base + 4 + |ts[0].value|;
      DecodableFirst(ts);
      KindOf(t);
      FirstShareLocated(rest, next, g);
      var here := if t.tag == TLS_KEY_SHARE then EntryTriples(Entries(t), base + 6) else [];
      FirstConcat(here, ShareTriples(rest, next), g);
      if t.tag == TLS_KEY_SHARE {
        FirstEntryLocated(Entries(t), base + 6, g);
      } else {
        NoFirst(g);
      }
    }
  }

  /** The list can be forged: it offers a share of `g` long enough to hold the post-quantum part. */
  predicate Forgeable(xs: seq<Extension>, g: int) {
    && PqComponent(g).Ok? && FirstShare(xs, g).Some?
    && PqComponent(g).value.0 + PqComponent(g).value.1 <= |FirstShare(xs, g).value.value|
  }

  /** Forging a well-formed record forges its meaning inside the same frame. */
  lemma ForgeMeaning(record: bytes, g: int)
    requires Meaning(record).Ok? && PqComponent(g).Ok?
    ensures Forge(record, g).Ok? <==> Forgeable(Meaning(record).value, g)
    ensures Forge(record, g).Err? ==> Forge(record, g) == Err(ValueError)
    ensures Forge(record, g).Ok? ==>
              var out, (o, n) := Forge(record, g).value, PqComponent(g).value;
              && Meaning(out) == Ok(ForgeExtensions(Meaning(record).value, g, o, n))
              && FrameOf(out) == FrameOf(record).(block := FrameOf(out).block)
  {
    hide ClientHelloExtensions, First, ShareTriples, FirstShare, ForgeTlvs, ForgeExtensions, FrameOf, Flip, Decodable,
         DecodeAll;
    var ts := ExtensionTlvs(record).value;
    var (o, n) := PqComponent(g).value;
    FirstShareLocated(ts, Bounds(record).0, g);
    if Forge(record, g).Ok? {
      FrameOfForged(record, g);
      ForgedMeaning(ts, g, o, n);
    }
  }

  /** Forging turns no record the rewriter refuses into one it accepts, or the other way round. */
  lemma ForgeKeepsAcceptance(record: bytes, g: int)
    requires Forge(record, g).Ok?
    ensures Meaning(Forge(record, g).value).Ok? <==> Meaning(record).Ok?
  {
    hide ClientHelloExtensions, First, ShareTriples, ForgeTlvs, ForgeExtensions, FrameOf, Flip, Decodable, DecodeAll;
    var ts := ExtensionTlvs(record).value;
    var (o, n) := PqComponent(g).value;
    FrameOfForged(record, g);
    ForgedMeaning(ts, g, o, n);
  }

  /** A well-formed record is determined by its meaning and the frame around it. */
  lemma SameBytes(a: bytes, b: bytes)
    ensures Meaning(a).Ok? && Meaning(a) == Meaning(b) && FrameOf(a) == FrameOf(b).(block := FrameOf(a).block) ==>
              a == b
  {
    hide ClientHelloExtensions, FrameOf, ParseTlvs, PrintTlvs, EncodeAll, Frame.Print, Frame.Valid;
    if Meaning(a).Ok? && Meaning(a) == Meaning(b) {
      MeaningPrints(a);
      MeaningPrints(b);
      PrintFrameOf(a);
      PrintFrameOf(b);
    }
  }

  lemma ForgeableMentions(xs: seq<Extension>, g: int)
    requires FirstShare(xs, g).Some?
    ensures AnyMentions(xs, g)
  {
    if HasShare(xs[0], g) {
      assert Mentions(xs[0], g);
    } else {
      ForgeableMentions(xs[1..], g);
      MentionsFirst(xs, g);
    }
  }

  /** Stripping `g` after forging `g` gives the bytes that stripping `g` alone gives. */
  lemma StripForgetsForge(record: bytes, g: int)
    requires Forge(record, g).Ok?
    ensures Strip(Forge(record, g).value, g) == Strip(record, g)
  {
    hide ClientHelloExtensions, FrameOf, ParseTlvs, Frame.Print, Frame.Valid, ForgeExtensions, FirstShare, RemoveAll,
         AnyMentions, Flip, PrintTlvs, EncodeAll;
    var out := Forge(record, g).value;
    var (o, n) := PqComponent(g).value;
    ForgeKeepsAcceptance(record, g);
    StripAcceptance(record, g);
    StripAcceptance(out, g);
    if Meaning(record).Ok? {
      var xs := Meaning(record).value;
      ForgeMeaning(record, g);
      ForgedExtensions(xs, g, g, o, n);
      ForgeableMentions(xs, g);
    }
  }

  function StripThenForge(record: bytes, h: int, g: int): Result<bytes> {
    var stripped :- Strip(record, h);
    Forge(stripped, g)
  }

  function ForgeThenStrip(record: bytes, g: int, h: int): Result<bytes> {
    var forged :- Forge(record, g);
    Strip(forged, h)
  }

  lemma StripKeepsFrame(record: bytes, h: int)
    requires Strip(record, h).Ok?
    ensures Meaning(record).Ok?
    ensures var out := Strip(record, h).value;
            && Located(out)
            && if AnyMentions(Meaning(record).value, h)
               then FrameOf(out) == FrameOf(record).(block := FrameOf(out).block, hsSlack := [], recSlack := [])
               else out == record
  {
    hide ClientHelloExtensions, FrameOf, ParseTlvs, Frame.Print, Frame.Valid, PrintTlvs;
    if AnyMentions(Meaning(record).value, h) {
      RemovalIsSmaller(record, h);
      MeaningOfRewrite(FrameOf(record), RemoveAll(Meaning(record).value, h));
    }
  }

  lemma CommuteAccepted(record: bytes, g: int, h: int)
    requires g != h && PqComponent(g).Ok? && Meaning(record).Ok?
    ensures StripThenForge(record, h, g) == ForgeThenStrip(record, g, h)
  {
    hide ClientHelloExtensions, FrameOf, Strip, Forge, Meaning, ForgeExtensions, RemoveAll, AnyMentions, FirstShare;
    var xs := Meaning(record).value;
    var (o, n) := PqComponent(g).value;
    StripAcceptance(record, h);
    StripMeaning(record, h);
    StripKeepsFrame(record, h);
    var stripped := Strip(record, h).value;
    ForgedExtensions(xs, g, h, o, n);
    ForgeMeaning(record, g);
    ForgeMeaning(stripped, g);
    if Forgeable(xs, g) {
      var forged := Forge(record, g).value;
      StripAcceptance(forged, h);
      StripMeaning(forged, h);
      StripKeepsFrame(forged, h);
      SameBytes(Forge(stripped, g).value, Strip(forged, h).value);
    }
  }

  /** For two different groups the two rewrites commute, as results: the same bytes or the same exception.
      The one exception that can differ is the `KeyError` for a group without a known post-quantum part. */
  lemma ForgeAndStripCommute(record: bytes, g: int, h: int)
    requires g != h
    ensures StripThenForge(record, h, g) == ForgeThenStrip(record, g, h) <==> PqComponent(g).Ok? || Meaning(record).Ok?
  {
    hide ClientHelloExtensions, FrameOf, Meaning;
    StripAcceptance(record, h);
    if PqComponent(g).Ok? && Meaning(record).Ok? {
      CommuteAccepted(record, g, h);
    } else if PqComponent(g).Ok? && Forge(record, g).Ok? {
      ForgeKeepsAcceptance(record, g);
      StripAcceptance(Forge(record, g).value, h);
    } else if PqComponent(g).Ok? {
      FindSharesRaises(record);
    }
  }
}

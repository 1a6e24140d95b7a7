/** The three ClientHello walkers agree on every record the rewriter accepts, before and after a strip. */
module CaptureProperties {
  import opened Bytes
  import opened Tlvs
  import opened Extensions
  import opened ClientHelloFrame
  import opened ClientHelloStrip
  import opened ClientHelloForge
  import opened CaptureReader

  // ---- shares, flattened

  /** Every share of a decoded extension list, in order. */
  function AllShares(xs: seq<Extension>): seq<Tlv> {
    if xs == [] then [] else (if xs[0].KeyShares? then xs[0].shares else []) + AllShares(xs[1..])
  }

  /** The ids of the last supported_groups extension, or `groups` if there is none. */
  function LastGroups(xs: seq<Extension>, groups: seq<u16>): seq<u16> {
    if xs == [] then groups else LastGroups(xs[1..], if xs[0].Groups? then xs[0].ids else groups)
  }

  lemma {:induction false} AllSharesRemoved(xs: seq<Extension>, g: int)
    ensures AllShares(RemoveAll(xs, g)) == WithoutTag(AllShares(xs), g)
  {
    hide WithoutTag;
    if xs == [] {
      WithoutTagNothing(g);
    } else {
      var here := if xs[0].KeyShares? then xs[0].shares else [];
      AllSharesRemoved(xs[1..], g);
      WithoutTagConcat(here, AllShares(xs[1..]), g);
      WithoutTagNothing(g);
      assert RemoveAll(xs, g)[1..] == RemoveAll(xs[1..], g);
    }
  }

  lemma {:induction false} LastGroupsRemoved(xs: seq<Extension>, groups: seq<u16>, g: int)
    ensures LastGroups(RemoveAll(xs, g), WithoutId(groups, g)) == WithoutId(LastGroups(xs, groups), g)
  {
    if xs != [] {
      LastGroupsRemoved(xs[1..], if xs[0].Groups? then xs[0].ids else groups, g);
      assert RemoveAll(xs, g)[1..] == RemoveAll(xs[1..], g);
    }
  }

  lemma TagsCons(t: Tlv, ts: seq<Tlv>)
    ensures Tags([]) == [] && Tags([t] + ts) == [t.tag] + Tags(ts)
  {
  }

  lemma {:induction false} TagsWithout(ts: seq<Tlv>, g: int)
    ensures Tags(WithoutTag(ts, g)) == WithoutId(Tags(ts), g)
  {
    hide Tags, WithoutTag, WithoutId;
    WithoutTagNothing(g);
    WithoutIdNothing(g);
    if ts == [] {
      TagsCons(Tlv(0, []), []);
    } else {
      var t, rest := ts[0], ts[1..];
      assert ts == [t] + rest;
      TagsWithout(rest, g);
      TagsCons(t, rest);
      TagsCons(t, WithoutTag(rest, g));
      WithoutTagCons(t, rest, g);
      WithoutIdCons(t.tag, Tags(rest), g);
      assert [] + WithoutTag(rest, g) == WithoutTag(rest, g);
    }
  }

  // ---- reading values back through located offsets

  predicate Covers(d: bytes, shares: seq<Share>) {
    forall i :: 0 <= i < |shares| ==>
                  && shares[i].group < 0x1_0000 && shares[i].length < 0x1_0000
                  && shares[i].offset + shares[i].length <= |d|
  }

  /** The shares that located offsets denote. */
  function ValuesAt(d: bytes, shares: seq<Share>): seq<Tlv>
    requires Covers(d, shares)
  {
    seq(|shares|, i requires 0 <= i < |shares| =>
      Tlv(shares[i].group, d[shares[i].offset..shares[i].offset + shares[i].length]))
  }

  lemma ValuesConcat(d: bytes, a: seq<Share>, b: seq<Share>)
    requires Covers(d, a) && Covers(d, b)
    ensures Covers(d, a + b) && ValuesAt(d, a + b) == ValuesAt(d, a) + ValuesAt(d, b)
  {
  }

  predicate PrintedAt(d: bytes, ts: seq<Tlv>, base: nat) {
    base + |PrintTlvs(ts)| <= |d| && d[base..base + |PrintTlvs(ts)|] == PrintTlvs(ts)
  }

  lemma PrintedFirst(d: bytes, ts: seq<Tlv>, base: nat)
    requires ts != [] && PrintedAt(d, ts, base)
    ensures var next := base + 4 + |ts[0].value|;
            && next <= |d| && d[base..next] == PrintTlv(ts[0]) && d[base + 4..next] == ts[0].value
            && PrintedAt(d, ts[1..], next)
  {
    hide PrintTlvs, B2;
    PrintFirst(ts);
    var s, first, rest := PrintTlvs(ts), PrintTlv(ts[0]), PrintTlvs(ts[1..]);
    assert s[0..|first|] == first && s[|first|..|s|] == rest && first[4..|first|] == ts[0].value;
    SliceOfSlice(d, base, base + |s|, 0, |first|);
    SliceOfSlice(d, base, base + |s|, |first|, |s|);
    SliceOfSlice(d, base, base + |first|, 4, |first|);
  }

  lemma {:induction false} EntriesReadBack(d: bytes, es: seq<Tlv>, base: nat)
    requires PrintedAt(d, es, base)
    ensures Covers(d, EntryTriples(es, base)) && ValuesAt(d, EntryTriples(es, base)) == es
  {
    hide PrintTlvs, PrintTlv;
    if es != [] {
      var next := base + 4 + |es[0].value|;
      PrintedFirst(d, es, base);
      EntriesReadBack(d, es[1..], next);
      ValuesConcat(d, [Share(es[0].tag, base + 4, |es[0].value|)], EntryTriples(es[1..], next));
    }
  }

  function SharesOf(ts: seq<Tlv>): seq<Tlv>
    requires SharesOk(ts)
  {
    if ts == [] then [] else (if ts[0].tag == TLS_KEY_SHARE then Entries(ts[0]) else []) + SharesOf(ts[1..])
  }

  lemma EntriesPrinted(d: bytes, t: Tlv, base: nat)
    requires t.tag == TLS_KEY_SHARE && Decode(t).Ok?
    requires base + |t.value| <= |d| && d[base..base + |t.value|] == t.value
    ensures PrintedAt(d, Entries(t), base + 2)
  {
    hide ParseTlvs, PrintTlvs;
    PrintParse(t.value[2..]);
    SliceOfSlice(d, base, base + |t.value|, 2, |t.value|);
  }

  lemma {:induction false} BlockReadBack(d: bytes, ts: seq<Tlv>, base: nat)
    requires SharesOk(ts) && PrintedAt(d, ts, base)
    ensures Covers(d, ShareTriples(ts, base)) && ValuesAt(d, ShareTriples(ts, base)) == SharesOf(ts)
  {
    hide PrintTlvs, PrintTlv, Decode, EntryTriples, ValuesAt, Covers;
    if ts == [] {
      NoValues(d);
    } else {
      var t, next := ts[0], base + 4 + |ts[0].value|;
      PrintedFirst(d, ts, base);
      BlockReadBack(d, ts[1..], next);
      var here := if t.tag == TLS_KEY_SHARE then EntryTriples(Entries(t), base + 6) else [];
      if t.tag == TLS_KEY_SHARE {
        EntriesPrinted(d, t, base + 4);
        EntriesReadBack(d, Entries(t), base + 6);
      } else {
        NoValues(d);
      }
      ValuesConcat(d, here, ShareTriples(ts[1..], next));
    }
  }

  lemma NoValues(d: bytes)
    ensures Covers(d, []) && ValuesAt(d, []) == []
  {
  }

  lemma {:induction false} SharesOfMeaning(ts: seq<Tlv>)
    requires Decodable(ts)
    ensures SharesOk(ts) && SharesOf(ts) == AllShares(DecodeAll(ts))
  {
    if ts != [] {
      SharesOfMeaning(ts[1..]);
      assert DecodeAll(ts)[1..] == DecodeAll(ts[1..]);
    }
  }

  // ---- the lenient walk on well-formed payloads

  lemma {:induction false} LenientEntries(payload: bytes, es: seq<Tlv>, c: nat)
    requires PrintedAt(payload, es, c) && c + |PrintTlvs(es)| == |payload|
    ensures LenientShares(payload, c) == Ok(Tags(es))
  {
    hide PrintTlvs, B2;
    if es == [] {
      PrintNothing();
    } else {
      var next := c + 4 + |es[0].value|;
      PrintedFirst(payload, es, c);
      PrintFirst(es);
      LenientEntries(payload, es[1..], next);
      var first := PrintTlv(es[0]);
      assert payload[c..next] == first && U16(first, 0) == es[0].tag && U16(first, 2) == |es[0].value|;
      assert U16(payload, c) == U16(payload[c..next], 0) && U16(payload, c + 2) == U16(payload[c..next], 2);
      assert Tags(es) == [es[0].tag] + Tags(es[1..]);
    }
  }

  lemma LenientPayload(t: Tlv)
    requires Decode(t).Ok?
    ensures t.tag == TLS_SUPPORTED_GROUPS ==>
              Decode(t).value.Groups? && LenientGroups(t.value, 2) == Ok(Decode(t).value.ids)
    ensures t.tag == TLS_KEY_SHARE ==>
              Decode(t).value.KeyShares? && LenientShares(t.value, 2) == Ok(Tags(Decode(t).value.shares))
    ensures t.tag != TLS_SUPPORTED_GROUPS && t.tag != TLS_KEY_SHARE ==> Decode(t).value.Other?
  {
    hide LenientGroups, LenientShares, ParseTlvs, PrintTlvs, ParseIds, PrintedAt;
    if t.tag == TLS_SUPPORTED_GROUPS {
      LenientGroupsExact(t.value, 2);
      assert |t.value| == 2 ==> ParseIds(t.value[2..]) == [];
    } else if t.tag == TLS_KEY_SHARE {
      assert t.value == t.value[0..|t.value|];
      EntriesPrinted(t.value, t, 0);
      PrintParse(t.value[2..]);
      assert |PrintTlvs(Entries(t))| == |t.value| - 2;
      LenientEntries(t.value, Entries(t), 2);
    }
  }

  lemma {:induction false} LenientMeaning(ts: seq<Tlv>, view: ClientView)
    requires Decodable(ts)
    ensures var xs := DecodeAll(ts);
            ReadExtensions(ts, view) == Ok(ClientView(LastGroups(xs, view.groups), view.shares + Tags(AllShares(xs))))
  {
    hide Decode, LenientGroups, LenientShares;
    if ts == [] {
      assert Tags([]) == [] && view.shares + [] == view.shares;
    } else {
      var x, xs := Decode(ts[0]).value, DecodeAll(ts);
      assert xs[0] == x && xs[1..] == DecodeAll(ts[1..]);
      LenientPayload(ts[0]);
      var here := if x.KeyShares? then x.shares else [];
      var next := ClientView(if x.Groups? then x.ids else view.groups, view.shares + Tags(here));
      assert x.KeyShares? || (Tags(here) == [] && view.shares + [] == view.shares);
      LenientMeaning(ts[1..], next);
      assert (view.shares + Tags(here)) + Tags(AllShares(xs[1..]))
             == view.shares + (Tags(here) + Tags(AllShares(xs[1..])));
      assert Tags(here + AllShares(xs[1..])) == Tags(here) + Tags(AllShares(xs[1..]));
    }
  }

  // ---- agreement

  /** On every record the rewriter accepts, `find_key_share` succeeds and its offsets denote the shares of the
      record, and the capture reader reports the last group list and the same share ids. */
  lemma WalkersAgree(record: bytes)
    requires Meaning(record).Ok?
    ensures FindShares(record).Ok? && Covers(record, FindShares(record).value)
    ensures var xs, values := Meaning(record).value, ValuesAt(record, FindShares(record).value);
            && values == AllShares(xs)
            && ReadClientHello(record) == Ok(ClientView(LastGroups(xs, []), Tags(values)))
  {
    hide ParseTlvs, PrintTlvs, ShareTriples, Decodable, DecodeAll, ClientHelloExtensions, ValuesAt, Covers,
         ReadExtensions;
    var ts := ExtensionTlvs(record).value;
    SharesOfMeaning(ts);
    PrintParse(FrameOf(record).block);
    BlockReadBack(record, ts, Bounds(record).0);
    LenientMeaning(ts, ClientView([], []));
    assert [] + Tags(AllShares(DecodeAll(ts))) == Tags(AllShares(DecodeAll(ts)));
  }

  /** What the other two walkers find in a stripped record is what they found before, without `g`. */
  lemma StripSeenByWalkers(record: bytes, g: int)
    requires Strip(record, g).Ok?
    ensures var out := Strip(record, g).value;
            && FindShares(record).Ok? && Covers(record, FindShares(record).value) && ReadClientHello(record).Ok?
            && FindShares(out).Ok? && Covers(out, FindShares(out).value)
            && ValuesAt(out, FindShares(out).value) == WithoutTag(ValuesAt(record, FindShares(record).value), g)
            && var view := ReadClientHello(record).value;
            && ReadClientHello(out) == Ok(ClientView(WithoutId(view.groups, g), WithoutId(view.shares, g)))
            && g !in WithoutId(view.groups, g) && g !in WithoutId(view.shares, g)
  {
    hide Strip, Meaning, FindShares, ReadClientHello, ValuesAt, Covers, WithoutTag, WithoutId, Tags,
         ClientHelloExtensions;
    StripAcceptance(record, g);
    StripMeaning(record, g);
    var out, xs := Strip(record, g).value, Meaning(record).value;
    WalkersAgree(record);
    WalkersAgree(out);
    AllSharesRemoved(xs, g);
    LastGroupsRemoved(xs, [], g);
    TagsWithout(AllShares(xs), g);
    WithoutIdNothing(g);
    WithoutIdCommutes(LastGroups(xs, []), g, g);
    WithoutIdCommutes(Tags(AllShares(xs)), g, g);
  }
}

/** The two extensions of a ClientHello that name groups (RFC 8446 sections 4.2.7 and 4.2.8), decoded. */
module Extensions {
  import opened Bytes
  import opened Filter
  import opened Tlvs

  const TLS_SUPPORTED_GROUPS := 0x000A
  const TLS_KEY_SHARE := 0x0033

  // ---- lists of two-byte group ids

  function PrintIds(ids: seq<u16>): (s: bytes)
    ensures |s| == 2 * |ids|
  {
    if ids == [] then [] else B2(ids[0]) + PrintIds(ids[1..])
  }

  function ParseIds(s: bytes): (ids: seq<u16>)
    requires |s| % 2 == 0
    ensures 2 * |ids| == |s|
  {
    if s == [] then [] else [U16(s, 0)] + ParseIds(s[2..])
  }

  lemma {:induction false} ParsePrintIds(ids: seq<u16>)
    ensures ParseIds(PrintIds(ids)) == ids
  {
    if ids != [] {
      var s := PrintIds(ids);
      assert U16(s, 0) == ids[0] && s[2..] == PrintIds(ids[1..]);
      ParsePrintIds(ids[1..]);
    }
  }

  lemma {:induction false} PrintParseIds(s: bytes)
    requires |s| % 2 == 0
    ensures PrintIds(ParseIds(s)) == s
  {
    if s != [] {
      PrintParseIds(s[2..]);
      B2OfU16(s, 0);
      assert ParseIds(s)[1..] == ParseIds(s[2..]);
      assert s == s[0..2] + s[2..];
    }
  }

  lemma {:induction false} PrintIdsConcat(a: seq<u16>, b: seq<u16>)
    ensures PrintIds(a + b) == PrintIds(a) + PrintIds(b)
  {
    if a == [] {
      assert a + b == b;
    } else {
      assert (a + b)[1..] == a[1..] + b;
      PrintIdsConcat(a[1..], b);
    }
  }

  function Is(g: int): u16 -> bool {
    (id: u16) => id == g
  }

  /** The ids other than `g`, in order. */
  function WithoutId(ids: seq<u16>, g: int): seq<u16> {
    Drop(ids, Is(g))
  }

  lemma WithoutIdSize(ids: seq<u16>, g: int)
    ensures |WithoutId(ids, g)| <= |ids|
    ensures |WithoutId(ids, g)| == |ids| <==> g !in ids
    ensures g !in ids <==> WithoutId(ids, g) == ids
  {
    DropSize(ids, Is(g));
    assert Any(ids, Is(g)) <==> g in ids;
  }

  lemma WithoutIdNothing(g: int)
    ensures WithoutId([], g) == []
  {
  }

  lemma WithoutIdCons(id: u16, ids: seq<u16>, g: int)
    ensures WithoutId([id] + ids, g) == (if id == g then [] else [id]) + WithoutId(ids, g)
  {
    DropCons(id, ids, Is(g));
  }

  lemma WithoutIdSnoc(ids: seq<u16>, id: u16, g: int)
    ensures PrintIds(WithoutId(ids + [id], g)) == PrintIds(WithoutId(ids, g)) + (if id == g then [] else B2(id))
  {
    hide WithoutId, B2;
    WithoutIdConcat(ids, [id], g);
    WithoutIdNothing(g);
    WithoutIdCons(id, [], g);
    assert [id] + [] == [id] && WithoutId(ids, g) + [] == WithoutId(ids, g);
    PrintIdsConcat(WithoutId(ids, g), [id]);
    assert PrintIds([id]) == B2(id) + [];
  }

  lemma WithoutIdConcat(a: seq<u16>, b: seq<u16>, g: int)
    ensures WithoutId(a + b, g) == WithoutId(a, g) + WithoutId(b, g)
  {
    DropConcat(a, b, Is(g));
  }

  lemma WithoutIdCommutes(ids: seq<u16>, g: int, h: int)
    ensures WithoutId(WithoutId(ids, g), h) == WithoutId(WithoutId(ids, h), g)
    ensures h in WithoutId(ids, g) <==> g != h && h in ids
  {
    DropCommutes(ids, Is(g), Is(h));
    DropAny(ids, Is(g), Is(h));
    assert Any(ids, Is(h)) <==> h in ids;
    assert Any(WithoutId(ids, g), Is(h)) <==> h in WithoutId(ids, g);
  }

  // ---- decoded extensions

  datatype Extension =
    | Groups(ids: seq<u16>)
    | KeyShares(shares: seq<Tlv>)
    | Other(tag: u16, value: vec16)

  /** Payloads of the two group-naming extensions start with their own two-byte length. */
  predicate Vector(payload: bytes) {
    |payload| >= 2 && U16(payload, 0) == |payload| - 2
  }

  function Decode(t: Tlv): Result<Extension> {
    if t.tag == TLS_SUPPORTED_GROUPS then
      if Vector(t.value) && |t.value| % 2 == 0 then Ok(Groups(ParseIds(t.value[2..]))) else Err(ValueError)
    else if t.tag == TLS_KEY_SHARE then
      if !Vector(t.value) then Err(ValueError) else
      var shares :- ParseTlvs(t.value[2..]);
      Ok(KeyShares(shares))
    else Ok(Other(t.tag, t.value))
  }

  predicate Fits(x: Extension) {
    match x
    case Groups(ids) => 2 + 2 * |ids| < 0x1_0000
    case KeyShares(shares) => 2 + |PrintTlvs(shares)| < 0x1_0000
    case Other(tag, _) => tag != 0x000A && tag != 0x0033
  }

  function Encode(x: Extension): Tlv
    requires Fits(x)
  {
    match x
    case Groups(ids) => Tlv(0x000A, B2(2 * |ids|) + PrintIds(ids))
    case KeyShares(shares) => Tlv(0x0033, B2(|PrintTlvs(shares)|) + PrintTlvs(shares))
    case Other(tag, value) => Tlv(tag, value)
  }

  lemma DecodeEncode(x: Extension)
    requires Fits(x)
    ensures Decode(Encode(x)) == Ok(x)
  {
    hide B2, PrintIds, ParseIds, PrintTlvs, ParseTlvs;
    var value := Encode(x).value;
    match x
    case Groups(ids) =>
      ParsePrintIds(ids);
      assert U16(value, 0) == 2 * |ids| && value[2..] == PrintIds(ids);
    case KeyShares(shares) =>
      ParsePrint(shares);
      assert U16(value, 0) == |PrintTlvs(shares)| && value[2..] == PrintTlvs(shares);
    case Other(_, _) =>
  }

  lemma VectorParts(payload: bytes)
    requires Vector(payload)
    ensures payload == B2(|payload[2..]|) + payload[2..]
  {
    B2OfU16(payload, 0);
    assert payload == payload[0..2] + payload[2..];
  }

  lemma EncodeDecode(t: Tlv)
    ensures Decode(t).Ok? ==> Fits(Decode(t).value) && Encode(Decode(t).value) == t
    ensures Decode(t).Err? ==> Decode(t) == Err(ValueError)
  {
    if t.tag == TLS_KEY_SHARE && Vector(t.value) {
      PrintParse(t.value[2..]);
      VectorParts(t.value);
    } else if t.tag == TLS_SUPPORTED_GROUPS && Vector(t.value) && |t.value| % 2 == 0 {
      PrintParseIds(t.value[2..]);
      VectorParts(t.value);
    }
  }

  // ---- removing one group

  function Remove(x: Extension, g: int): Extension {
    match x
    case Groups(ids) => Groups(WithoutId(ids, g))
    case KeyShares(shares) => KeyShares(WithoutTag(shares, g))
    case Other(_, _) => x
  }

  predicate Mentions(x: Extension, g: int) {
    match x
    case Groups(ids) => g in ids
    case KeyShares(shares) => HasTag(shares, g)
    case Other(_, _) => false
  }

  /** The bytes that removing `g` saves: two for each group, four and its value for each share. */
  function RemovedSize(x: Extension, g: int): nat {
    match x
    case Groups(ids) => WithoutIdSize(ids, g); 2 * (|ids| - |WithoutId(ids, g)|)
    case KeyShares(shares) => TaggedSize(shares, g)
    case Other(_, _) => 0
  }

  lemma RemoveFits(x: Extension, g: int)
    requires Fits(x)
    ensures Fits(Remove(x, g))
    ensures |Encode(x).value| == |Encode(Remove(x, g)).value| + RemovedSize(x, g)
    ensures Mentions(x, g) <==> Remove(x, g) != x
    ensures Mentions(x, g) <==> RemovedSize(x, g) > 0
  {
    match x
    case Groups(ids) => WithoutIdSize(ids, g);
    case KeyShares(shares) => WithoutTagSize(shares, g);
    case Other(_, _) =>
  }

  lemma RemoveCommutes(x: Extension, g: int, h: int)
    ensures Remove(Remove(x, g), h) == Remove(Remove(x, h), g)
    ensures Mentions(Remove(x, g), h) <==> g != h && Mentions(x, h)
  {
    match x
    case Groups(ids) => WithoutIdCommutes(ids, g, h);
    case KeyShares(shares) => WithoutTagCommutes(shares, g, h);
    case Other(_, _) =>
  }

  // ---- extension lists

  predicate Decodable(ts: seq<Tlv>) {
    forall i :: 0 <= i < |ts| ==> Decode(ts[i]).Ok?
  }

  function DecodeAll(ts: seq<Tlv>): seq<Extension>
    requires Decodable(ts)
  {
    seq(|ts|, i requires 0 <= i < |ts| => Decode(ts[i]).value)
  }

  function RemoveAll(xs: seq<Extension>, g: int): seq<Extension> {
    seq(|xs|, i requires 0 <= i < |xs| => Remove(xs[i], g))
  }

  predicate AnyMentions(xs: seq<Extension>, g: int) {
    exists i :: 0 <= i < |xs| && Mentions(xs[i], g)
  }

  predicate AllFit(xs: seq<Extension>) {
    forall i :: 0 <= i < |xs| ==> Fits(xs[i])
  }

  function EncodeAll(xs: seq<Extension>): seq<Tlv>
    requires AllFit(xs)
  {
    seq(|xs|, i requires 0 <= i < |xs| => Encode(xs[i]))
  }

  function RemovedTotal(xs: seq<Extension>, g: int): nat {
    if xs == [] then 0 else RemovedSize(xs[0], g) + RemovedTotal(xs[1..], g)
  }

  lemma DecodeEncodeAll(xs: seq<Extension>)
    requires AllFit(xs)
    ensures Decodable(EncodeAll(xs)) && DecodeAll(EncodeAll(xs)) == xs
  {
    forall i | 0 <= i < |xs|
      ensures Decode(EncodeAll(xs)[i]) == Ok(xs[i])
    {
      DecodeEncode(xs[i]);
    }
  }

  lemma EncodeDecodeAll(ts: seq<Tlv>)
    requires Decodable(ts)
    ensures AllFit(DecodeAll(ts)) && EncodeAll(DecodeAll(ts)) == ts
  {
    forall i | 0 <= i < |ts|
      ensures Fits(DecodeAll(ts)[i]) && Encode(DecodeAll(ts)[i]) == ts[i]
    {
      EncodeDecode(ts[i]);
    }
  }

  lemma RemoveAllFits(xs: seq<Extension>, g: int)
    requires AllFit(xs)
    ensures AllFit(RemoveAll(xs, g))
    ensures AnyMentions(xs, g) <==> RemoveAll(xs, g) != xs
  {
    forall i | 0 <= i < |xs|
      ensures Fits(RemoveAll(xs, g)[i]) && (Mentions(xs[i], g) <==> RemoveAll(xs, g)[i] != xs[i])
    {
      RemoveFits(xs[i], g);
    }
  }

  lemma RemoveAllCommutes(xs: seq<Extension>, g: int, h: int)
    ensures RemoveAll(RemoveAll(xs, g), h) == RemoveAll(RemoveAll(xs, h), g)
    ensures AnyMentions(RemoveAll(xs, g), h) <==> g != h && AnyMentions(xs, h)
  {
    forall i | 0 <= i < |xs|
      ensures Remove(Remove(xs[i], g), h) == Remove(Remove(xs[i], h), g)
      ensures Mentions(RemoveAll(xs, g)[i], h) <==> g != h && Mentions(xs[i], h)
    {
      RemoveCommutes(xs[i], g, h);
    }
  }

  lemma {:induction false} RemoveAllSize(xs: seq<Extension>, g: int)
    requires AllFit(xs)
    ensures AllFit(RemoveAll(xs, g))
    ensures |PrintTlvs(EncodeAll(xs))| == |PrintTlvs(EncodeAll(RemoveAll(xs, g)))| + RemovedTotal(xs, g)
  {
    hide PrintTlvs, PrintTlv, Encode, Fits, Remove, RemovedSize;
    RemoveAllFits(xs, g);
    PrintNothing();
    if xs != [] {
      var ys := RemoveAll(xs, g);
      RemoveFits(xs[0], g);
      RemoveAllSize(xs[1..], g);
      assert ys[1..] == RemoveAll(xs[1..], g);
      assert EncodeAll(xs)[1..] == EncodeAll(xs[1..]);
      assert EncodeAll(ys)[1..] == EncodeAll(ys[1..]);
      PrintFirst(EncodeAll(xs));
      PrintFirst(EncodeAll(ys));
    }
  }

  /** Something is saved exactly when an extension names `g`. */
  lemma {:induction false} RemovedTotalPositive(xs: seq<Extension>, g: int)
    requires AllFit(xs)
    ensures AnyMentions(xs, g) <==> RemovedTotal(xs, g) > 0
  {
    hide Fits, Mentions, RemovedSize;
    if xs != [] {
      RemoveFits(xs[0], g);
      RemovedTotalPositive(xs[1..], g);
      if AnyMentions(xs[1..], g) {
        var i :| 0 <= i < |xs[1..]| && Mentions(xs[1..][i], g);
        assert xs[i + 1] == xs[1..][i];
      }
    }
  }
}

/** Complete messages, byte by byte, and what the tools make of them. */
module WireVectors {
  import opened Bytes
  import opened Tlvs
  import opened Extensions
  import opened ClientHelloFrame
  import opened ClientHelloStrip
  import opened ClientHelloForge
  import opened CaptureReader
  import opened CaptureProperties
  import opened ServerHelloFormat
  import NameList
  import SshKex

  // ---- a ClientHello that offers the hybrid and the classical group

  const HELLO_FRONT: bytes := [0x16, 0x03, 0x01, 0x00, 0x49, 0x01, 0x00, 0x00, 0x45]

  const STRIPPED_FRONT: bytes := [0x16, 0x03, 0x01, 0x00, 0x42, 0x01, 0x00, 0x00, 0x3e]

  /** Legacy version, random, no session id, one cipher suite, one compression method. */
  const HELLO_PREFIX: bytes := [
    0x03, 0x03,
    0x00, 0x00, 0x00, 0x00, 0x00, 0x00, 0x00, 0x00, 0x00, 0x00, 0x00, 0x00, 0x00, 0x00, 0x00, 0x00,
    0x00, 0x00, 0x00, 0x00, 0x00, 0x00, 0x00, 0x00, 0x00, 0x00, 0x00, 0x00, 0x00, 0x00, 0x00, 0x00,
    0x00, 0x00, 0x02, 0x13, 0x01, 0x01, 0x00]

  const HELLO_BLOCK: bytes := [
    0x00, 0x0a, 0x00, 0x06, 0x00, 0x04, 0x11, 0xec, 0x00, 0x1d,
    0x00, 0x33, 0x00, 0x0c, 0x00, 0x0a, 0x11, 0xec, 0x00, 0x01, 0xaa, 0x00, 0x1d, 0x00, 0x01, 0xbb]

  const STRIPPED_BLOCK: bytes := [
    0x00, 0x0a, 0x00, 0x04, 0x00, 0x02, 0x00, 0x1d,
    0x00, 0x33, 0x00, 0x07, 0x00, 0x05, 0x00, 0x1d, 0x00, 0x01, 0xbb]

  const HELLO: bytes := HELLO_FRONT + HELLO_PREFIX + [0x00, 0x1a] + HELLO_BLOCK

  const STRIPPED_HELLO: bytes := STRIPPED_FRONT + HELLO_PREFIX + [0x00, 0x13] + STRIPPED_BLOCK

  const HYBRID_SHARE := Tlv(0x11EC, [0xaa])
  const CLASSICAL_SHARE := Tlv(0x001D, [0xbb])

  const OFFERED: seq<Extension> := [Groups([0x11EC, 0x001D]), KeyShares([HYBRID_SHARE, CLASSICAL_SHARE])]
  const REMAINING: seq<Extension> := [Groups([0x001D]), KeyShares([CLASSICAL_SHARE])]

  function HelloFrame(block: vec16): Frame {
    Frame([0x03, 0x01], HELLO_PREFIX[..34], [], [0x13, 0x01], [0x00], block, [], [], [])
  }

  lemma PrintOne(t: Tlv)
    ensures PrintTlvs([t]) == B2(t.tag) + B2(|t.value|) + t.value
  {
    PrintFirst([t]);
    PrintNothing();
  }

  lemma PrintTwo(t: Tlv, u: Tlv)
    ensures PrintTlvs([t, u]) == B2(t.tag) + B2(|t.value|) + t.value + (B2(u.tag) + B2(|u.value|) + u.value)
  {
    PrintFirst([t, u]);
    PrintOne(u);
    assert [t, u][1..] == [u];
  }

  lemma IdsBytes(a: u16, b: u16)
    ensures PrintIds([a]) == B2(a) && PrintIds([a, b]) == B2(a) + B2(b)
  {
    assert [a, b][1..] == [b] && [b][1..] == [] && [a][1..] == [];
  }

  lemma OfferedBytes()
    ensures AllFit(OFFERED) && PrintTlvs(EncodeAll(OFFERED)) == HELLO_BLOCK
  {
    hide PrintTlvs, Encode, Fits;
    OfferedEntries();
    var t, u := Encode(OFFERED[0]), Encode(OFFERED[1]);
    PrintTwo(t, u);
    assert EncodeAll(OFFERED) == [t, u];
  }

  lemma OfferedEntries()
    ensures AllFit(OFFERED)
    ensures Encode(OFFERED[0]) == Tlv(0x000A, [0x00, 0x04, 0x11, 0xec, 0x00, 0x1d])
    ensures Encode(OFFERED[1])
            == Tlv(0x0033, [0x00, 0x0a, 0x11, 0xec, 0x00, 0x01, 0xaa, 0x00, 0x1d, 0x00, 0x01, 0xbb])
  {
    hide PrintTlvs, PrintIds;
    IdsBytes(0x11EC, 0x001D);
    PrintTwo(HYBRID_SHARE, CLASSICAL_SHARE);
  }

  lemma RemainingBytes()
    ensures AllFit(REMAINING) && PrintTlvs(EncodeAll(REMAINING)) == STRIPPED_BLOCK
  {
    hide PrintTlvs, PrintIds;
    IdsBytes(0x001D, 0);
    PrintOne(CLASSICAL_SHARE);
    var t, u := Encode(REMAINING[0]), Encode(REMAINING[1]);
    PrintTwo(t, u);
    assert EncodeAll(REMAINING) == [t, u];
    assert t.value == [0x00, 0x02, 0x00, 0x1d];
    assert u.value == [0x00, 0x05, 0x00, 0x1d, 0x00, 0x01, 0xbb];
  }

  lemma HybridRemoved()
    ensures RemoveAll(OFFERED, 0x11EC) == REMAINING && AnyMentions(OFFERED, 0x11EC)
  {
    hide WithoutId, WithoutTag, HasTag;
    var g := 0x11EC;
    var ids: seq<u16>, id: seq<u16> := [0x11EC, 0x001D], [0x001D];
    assert ids == [0x11EC] + id && id == [0x001D] + [];
    WithoutIdNothing(g);
    WithoutIdCons(0x001D, [], g);
    WithoutIdCons(0x11EC, id, g);
    assert WithoutId(ids, g) == id;
    var shares, share := [HYBRID_SHARE, CLASSICAL_SHARE], [CLASSICAL_SHARE];
    assert shares == [HYBRID_SHARE] + share && share == [CLASSICAL_SHARE] + [];
    WithoutTagNothing(g);
    WithoutTagCons(CLASSICAL_SHARE, [], g);
    WithoutTagCons(HYBRID_SHARE, share, g);
    assert WithoutTag(shares, g) == share;
    assert Mentions(OFFERED[0], g);
  }

  lemma HelloBytes(block: vec16)
    requires |block| < 100
    ensures var f := HelloFrame(block);
            && f.Valid()
            && f.Print() == [0x16, 0x03, 0x01, 0x00, 47 + |block|, 0x01, 0x00, 0x00, 43 + |block|] + HELLO_PREFIX
                            + [0x00, |block|] + block
  {
    var f := HelloFrame(block);
    assert f.BodySize() == 43 + |block|;
    assert B2(47 + |block|) == [0x00, 47 + |block|] && B3(43 + |block|) == [0x00, 0x00, 43 + |block|];
    assert f.Head() == [0x16, 0x03, 0x01, 0x00, 47 + |block|, 0x01, 0x00, 0x00, 43 + |block|];
    assert f.Prefix() == HELLO_PREFIX;
    assert f.Rest() == [];
  }

  /** Removing the hybrid group from a ClientHello, byte by byte. */
  lemma StripVector()
    ensures Strip(HELLO, 0x11EC) == Ok(STRIPPED_HELLO)
    ensures Meaning(HELLO) == Ok(OFFERED)
    ensures ReadClientHello(HELLO) == Ok(ClientView([0x11EC, 0x001D], [0x11EC, 0x001D]))
    ensures ReadClientHello(STRIPPED_HELLO) == Ok(ClientView([0x001D], [0x001D]))
  {
    hide Frame.Print, Frame.Valid, PrintTlvs, EncodeAll, RemoveAll, AnyMentions, ReadClientHello, Meaning, FrameOf,
         ClientHelloExtensions;
    var f := HelloFrame(HELLO_BLOCK);
    HelloBytes(HELLO_BLOCK);
    HelloBytes(STRIPPED_BLOCK);
    OfferedBytes();
    RemainingBytes();
    HybridRemoved();
    assert f.Print() == HELLO;
    MeaningOfRewrite(f, OFFERED);
    assert HelloFrame(STRIPPED_BLOCK).Print() == STRIPPED_HELLO;
    MeaningOfRewrite(f, REMAINING);
    WalkersAgree(HELLO);
    WalkersAgree(STRIPPED_HELLO);
    OfferedViews();
  }

  lemma OfferedViews()
    ensures LastGroups(OFFERED, []) == [0x11EC, 0x001D] && Tags(AllShares(OFFERED)) == [0x11EC, 0x001D]
    ensures LastGroups(REMAINING, []) == [0x001D] && Tags(AllShares(REMAINING)) == [0x001D]
  {
    assert OFFERED[1..] == [KeyShares([HYBRID_SHARE, CLASSICAL_SHARE])] && OFFERED[1..][1..] == [];
    assert REMAINING[1..] == [KeyShares([CLASSICAL_SHARE])] && REMAINING[1..][1..] == [];
    assert LastGroups(OFFERED[1..], [0x11EC, 0x001D]) == LastGroups(OFFERED[1..][1..], [0x11EC, 0x001D]);
    assert LastGroups(REMAINING[1..], [0x001D]) == LastGroups(REMAINING[1..][1..], [0x001D]);
    assert AllShares(OFFERED[1..]) == [HYBRID_SHARE, CLASSICAL_SHARE] + AllShares(OFFERED[1..][1..]);
    assert AllShares(REMAINING[1..]) == [CLASSICAL_SHARE] + AllShares(REMAINING[1..][1..]);
  }

  lemma TwoEntries(base: nat)
    ensures EntryTriples([HYBRID_SHARE, CLASSICAL_SHARE], base)
            == [Share(0x11EC, base + 4, 1), Share(0x001D, base + 9, 1)]
  {
    var es := [HYBRID_SHARE, CLASSICAL_SHARE];
    assert es[1..] == [CLASSICAL_SHARE] && es[1..][1..] == [];
    assert EntryTriples(es[1..], base + 5) == [Share(0x001D, base + 9, 1)] + EntryTriples(es[1..][1..], base + 10);
  }

  lemma TwoExtensions(t: Tlv, u: Tlv, base: nat)
    requires t.tag == 0x000A && u.tag == 0x0033 && Decode(u) == Ok(OFFERED[1])
    ensures SharesOk([t, u])
    ensures ShareTriples([t, u], base)
            == EntryTriples([HYBRID_SHARE, CLASSICAL_SHARE], base + 4 + |t.value| + 6)
  {
    hide Decode, EntryTriples;
    var ts := [t, u];
    assert ts[1..] == [u] && ts[1..][1..] == [];
    assert SharesOk([]) && ShareTriples([], base + 8 + |t.value| + |u.value|) == [];
    var next := base + 4 + |t.value|;
    assert ShareTriples(ts[1..], next) == EntryTriples(Entries(u), next + 6) + [];
  }

  /** The shares of that ClientHello lie at these offsets. */
  lemma ShareVector()
    ensures FindShares(HELLO) == Ok([Share(0x11EC, 72, 1), Share(0x001D, 77, 1)])
  {
    hide Frame.Print, Frame.Valid, PrintTlvs, FrameOf, ClientHelloExtensions, Decode, Encode, ParseTlvs, ShareTriples,
         EntryTriples, SharesOk;
    HelloBytes(HELLO_BLOCK);
    OfferedBytes();
    var f, ts := HelloFrame(HELLO_BLOCK), EncodeAll(OFFERED);
    assert f.Print() == HELLO;
    FrameOfPrint(f);
    ParsePrint(ts);
    DecodeEncodeAll(OFFERED);
    assert Decode(ts[1]) == Ok(OFFERED[1]) by { assert DecodeAll(ts)[1] == OFFERED[1]; }
    OfferedTags();
    assert ts == [Encode(OFFERED[0]), Encode(OFFERED[1])];
    TwoExtensions(ts[0], ts[1], 52);
    TwoEntries(68);
  }

  lemma OfferedTags()
    ensures AllFit(OFFERED)
    ensures Encode(OFFERED[0]).tag == 0x000A && |Encode(OFFERED[0]).value| == 6 && Encode(OFFERED[1]).tag == 0x0033
  {
    OfferedEntries();
  }

  // ---- a ClientHello with one hybrid share of full size

  const FORGE_FRONT: bytes := [0x16, 0x03, 0x01, 0x04, 0xf9, 0x01, 0x00, 0x04, 0xf5]

  const SHARE_FRONT: bytes := [0x00, 0x33, 0x04, 0xc6, 0x04, 0xc4, 0x11, 0xec, 0x04, 0xc0]

  lemma FullShareBytes(value: bytes)
    requires |value| == 1216
    ensures var xs := [KeyShares([Tlv(0x11EC, value)])];
            && AllFit(xs) && Encode(xs[0]).tag == 0x0033
            && PrintTlvs(EncodeAll(xs)) == SHARE_FRONT + value
  {
    hide PrintTlvs;
    var entry, xs := Tlv(0x11EC, value), [KeyShares([Tlv(0x11EC, value)])];
    PrintOne(entry);
    assert B2(0x11EC) == [0x11, 0xec] && B2(1216) == [0x04, 0xc0] && B2(1220) == [0x04, 0xc4];
    assert B2(0x0033) == [0x00, 0x33] && B2(1222) == [0x04, 0xc6];
    var t := Encode(xs[0]);
    assert EncodeAll(xs) == [t];
    PrintOne(t);
  }

  lemma FullHelloBytes(block: vec16)
    requires |block| == 1226
    ensures HelloFrame(block).Valid() && HelloFrame(block).Print() == FORGE_FRONT + HELLO_PREFIX + [0x04, 0xca] + block
  {
    var f := HelloFrame(block);
    assert B2(1273) == [0x04, 0xf9] && B3(1269) == [0x00, 0x04, 0xf5] && B2(1226) == [0x04, 0xca];
    assert f.Head() == FORGE_FRONT && f.Prefix() == HELLO_PREFIX && f.Rest() == [];
  }

  lemma FullShareFound(value: bytes)
    requires |value| == 1216
    ensures FindShares(FORGE_FRONT + HELLO_PREFIX + [0x04, 0xca] + (SHARE_FRONT + value))
            == Ok([Share(0x11EC, 62, 1216)])
  {
    hide Frame.Print, Frame.Valid, PrintTlvs, FrameOf, ClientHelloExtensions, Decode, Encode, ParseTlvs, ShareTriples,
         EntryTriples, SharesOk;
    FullShareBytes(value);
    FullHelloBytes(SHARE_FRONT + value);
    var xs := [KeyShares([Tlv(0x11EC, value)])];
    var f, ts := HelloFrame(SHARE_FRONT + value), EncodeAll(xs);
    FrameOfPrint(f);
    ParsePrint(ts);
    DecodeEncodeAll(xs);
    assert Decode(ts[0]) == Ok(xs[0]) by { assert DecodeAll(ts)[0] == xs[0]; }
    assert ts == [Encode(xs[0])];
    OneExtension(ts[0], [Tlv(0x11EC, value)], 52);
    OneEntry(value, 58);
  }

  lemma OneExtension(u: Tlv, es: seq<Tlv>, base: nat)
    requires u.tag == 0x0033 && Decode(u) == Ok(KeyShares(es))
    ensures SharesOk([u]) && ShareTriples([u], base) == EntryTriples(es, base + 6)
  {
    hide Decode, EntryTriples;
    assert [u][1..] == [] && ShareTriples([], base + 4 + |u.value|) == [];
    assert ShareTriples([u], base) == EntryTriples(Entries(u), base + 6) + [];
  }

  lemma OneEntry(value: vec16, base: nat)
    ensures EntryTriples([Tlv(0x11EC, value)], base) == [Share(0x11EC, base + 4, |value|)]
  {
    var es := [Tlv(0x11EC, value)];
    assert EntryTriples(es[1..], base + 4 + |value|) == [];
  }

  /** Forging the post-quantum half of a full X25519MLKEM768 share, byte by byte. */
  lemma ForgeVector(value: bytes)
    requires |value| == 1216
    ensures var front := FORGE_FRONT + HELLO_PREFIX + [0x04, 0xca] + SHARE_FRONT;
            Forge(front + value, 0x11EC) == Ok(front + (Flip(value[..1184], 0, 1184) + value[1184..]))
  {
    hide FindShares, Flip, ClientHelloExtensions;
    var front := FORGE_FRONT + HELLO_PREFIX + [0x04, 0xca] + SHARE_FRONT;
    assert front + value == FORGE_FRONT + HELLO_PREFIX + [0x04, 0xca] + (SHARE_FRONT + value);
    FullShareFound(value);
    var shares := [Share(0x11EC, 62, 1216)];
    assert First(shares, 0x11EC) == Some(shares[0]);
    assert |front| == 62;
    FlipInside(front, value, [], 0, 1184);
    assert front + value + [] == front + value;
    FlipParts(value, 0, 1184);
    var flipped := Flip(value[..1184], 0, 1184);
    assert value[0..1184] == value[..1184] && value[..0] + flipped == flipped;
    assert front + (flipped + value[1184..]) + [] == front + (flipped + value[1184..]);
  }

  // ---- a ServerHello

  const SERVER_FRONT: bytes := [0x16, 0x03, 0x03, 0x00, 0x32, 0x02, 0x00, 0x00, 0x2e, 0x03, 0x03]

  function SelectFrame(random: bytes, group: u16): ServerFrame {
    ServerFrame([0x16, 0x03, 0x03], [0x00, 0x00, 0x2e], [0x03, 0x03], random, [], [0x13, 0x01, 0x00],
                [0x00, 0x33, 0x00, 0x02, group / 0x100, group % 0x100], [], [])
  }

  lemma SelectBytes(random: bytes, group: u16)
    requires |random| == 32
    ensures var f := SelectFrame(random, group);
            && f.Valid()
            && f.Print() == (SERVER_FRONT + random + [0x00]) + [0x13, 0x01, 0x00] + [0x00, 0x06]
                            + [0x00, 0x33, 0x00, 0x02, group / 0x100, group % 0x100]
  {
    hide ServerFrame.Head;
    var f := SelectFrame(random, group);
    SelectHead(random, group);
    assert B2(6) == [0x00, 0x06];
    assert f.sessionId + f.suite == [0x13, 0x01, 0x00] && f.slack + f.tail == [];
  }

  lemma SelectHead(random: bytes, group: u16)
    requires |random| == 32
    ensures SelectFrame(random, group).Valid()
    ensures SelectFrame(random, group).Head() == SERVER_FRONT + random + [0x00]
  {
    assert B2(0x32) == [0x00, 0x32];
  }

  /** A ServerHello or a retry request that selects one group, byte by byte. */
  lemma ServerHelloVector(random: bytes, group: u16)
    requires |random| == 32
    ensures var record := (SERVER_FRONT + random + [0x00]) + [0x13, 0x01, 0x00] + [0x00, 0x06]
                          + [0x00, 0x33, 0x00, 0x02, group / 0x100, group % 0x100];
            ReadServerHello(record)
            == Ok(ServerView(
                 random == [
                   0xcf, 0x21, 0xad, 0x74, 0xe5, 0x9a, 0x61, 0x11, 0xbe, 0x1d, 0x8c, 0x02, 0x1e, 0x65, 0xb8, 0x91,
                   0xc2, 0xa2, 0x11, 0x16, 0x7a, 0xbb, 0x8c, 0x5e, 0x07, 0x9e, 0x09, 0xe2, 0xc8, 0xa8, 0x33, 0x9c],
                 Some(group)))
  {
    hide ReadServerHello, ServerFrame.Print, ServerFrame.Valid, PrintTlvs;
    var t := Tlv(0x0033, [group / 0x100, group % 0x100]);
    PrintOne(t);
    SelectBytes(random, group);
    assert PrintTlvs([t]) == SelectFrame(random, group).block;
    ServerHelloReadsBack(SelectFrame(random, group), [t]);
    LastOfOne(t);
  }

  lemma LastOfOne(t: Tlv)
    requires t.tag == 0x0033 && |t.value| == 2
    ensures Readable([t]) && LastGroup([t]) == Some(U16(t.value, 0))
  {
  }

  // ---- SSH packets

  const COOKIE: bytes := [
    0x00, 0x00, 0x00, 0x00, 0x00, 0x00, 0x00, 0x00, 0x00, 0x00, 0x00, 0x00, 0x00, 0x00, 0x00, 0x00]

  function KexinitFrame(names: bytes): SshKex.Kexinit {
    SshKex.Kexinit([20] + COOKIE, names, [], [0, 0, 0, 0], [])
  }

  lemma KexinitBytes(names: bytes)
    requires |names| < 100
    ensures var k := KexinitFrame(names);
            && k.Valid()
            && k.Print() == [0, 0, 0, 26 + |names|, 4, 20] + COOKIE + [0, 0, 0, |names|] + names + [0, 0, 0, 0]
  {
    assert B4(26 + |names|) == [0, 0, 0, 26 + |names|] && B4(|names|) == [0, 0, 0, |names|];
  }

  /** Removing one of two names from a KEXINIT, byte by byte. */
  lemma KexinitVector()
    ensures var packet: bytes := [0, 0, 0, 29, 4, 20] + COOKIE + [0, 0, 0, 3] + [0x62, 0x2C, 0x61] + [0, 0, 0, 0];
            && SshKex.KexinitAlgorithms(packet) == Ok(["b", "a"])
            && SshKex.StripKexinit(packet, "a")
               == Ok([0, 0, 0, 27, 4, 20] + COOKIE + [0, 0, 0, 1] + [0x62] + [0, 0, 0, 0])
  {
    hide SshKex.StripKexinit, SshKex.KexinitBounds, SshKex.KexinitOf, SshKex.KexinitAlgorithms, SshKex.Replacement,
         NameList.Without, SshKex.Kexinit.Print, SshKex.Kexinit.Valid, SshKex.Chars, SshKex.Octets, SshKex.IsAscii,
         NameList.Names, NameList.Join;
    var k := KexinitFrame([0x62, 0x2C, 0x61]);
    KexinitBytes(k.names);
    KexinitBytes([0x62]);
    NamesOfVector();
    SshKex.AlgorithmsOfPrint(k);
    SshKex.KexinitOfPrint(k);
    SshKex.StripKexinitPrints(k.Print(), "a");
    SshKex.ReplacementFacts(k.Print(), "a");
    OneLetter(SshKex.Replacement(k.Print(), "a"));
    assert ["b", "a"][1] == "a";
    assert k.(names := [0x62], tail := []) == KexinitFrame([0x62]);
  }

  lemma OneLetter(b: bytes)
    ensures SshKex.IsAscii(b) && SshKex.Chars(b) == "b" ==> b == [0x62]
  {
    if SshKex.IsAscii(b) && SshKex.Chars(b) == "b" {
      assert |b| == |SshKex.Chars(b)| == 1;
      assert SshKex.Chars(b)[0] == b[0] as char == 'b';
    }
  }

  lemma NamesOfVector()
    ensures SshKex.IsAscii([0x62, 0x2C, 0x61]) && NameList.Names(SshKex.Chars([0x62, 0x2C, 0x61])) == ["b", "a"]
    ensures NameList.Join(NameList.Without(["b", "a"], "a")) == "b"
  {
    hide NameList.Without;
    assert SshKex.Chars([0x62, 0x2C, 0x61]) == "b,a" == "b" + "," + "a";
    NameList.SplitWord("a");
    NameList.SplitCons("b", "a");
    assert ["b", "a"] == ["b"] + (["a"] + []);
    NameList.WithoutCons("b", ["a"] + [], "a");
    NameList.WithoutCons("a", [], "a");
    NameList.WithoutAbsent([], "a");
  }

  /** Forging the public value of a KEX_ECDH_INIT as OpenSSH sends it, byte by byte. */
  lemma EcdhInitVector(blob: bytes)
    requires |blob| == 1190
    ensures SshKex.ForgeSsh([0, 0, 4, 0xb0, 4, 30, 0, 0, 4, 0xa6] + blob + [0, 0, 0, 0])
            == Ok([0, 0, 4, 0xb0, 4, 30, 0, 0, 4, 0xa6] + (Flip(blob[..1158], 0, 1158) + blob[1158..]) + [0, 0, 0, 0])
  {
    hide SshKex.ForgeSsh, Flip;
    var k := SshKex.EcdhInit(blob, [], [0, 0, 0, 0], []);
    assert B4(1200) == [0, 0, 4, 0xb0] && B4(1190) == [0, 0, 4, 0xa6];
    SshKex.ForgeSshPrinted(k);
    assert k.Print() == [0, 0, 4, 0xb0, 4, 30, 0, 0, 4, 0xa6] + blob + [0, 0, 0, 0];
    var forged := Flip(blob[..1158], 0, 1158) + blob[1158..];
    assert k.(blob := forged).Print() == [0, 0, 4, 0xb0, 4, 30, 0, 0, 4, 0xa6] + forged + [0, 0, 0, 0];
  }
}

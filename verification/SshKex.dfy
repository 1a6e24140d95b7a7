/** SSH key-exchange packets (RFC 4253 sections 6 and 7.1): forging the post-quantum half of a KEX_ECDH_INIT
    public value, and removing one algorithm from a KEXINIT. */
module SshKex {
  import opened Bytes
  import opened NameList

  const SSH_MSG_KEX_ECDH_INIT: byte := 30
  const SSH_MSG_KEXINIT: byte := 20
  const SNTRUP761_PUBLICKEY_BYTES := 1158
  const X25519_BYTES := 32

  // ---- KEX_ECDH_INIT

  /** `find_kex_ecdh_init`: offset and length of the client's public value. */
  function FindKexEcdhInit(packet: bytes): Option<(nat, nat)> {
    if |packet| < 10 then None else
    var packetEnd := 4 + U32(packet, 0);
    var payloadEnd := packetEnd - packet[4] as int;
    if packetEnd > |packet| || payloadEnd < 10 || packet[5] != SSH_MSG_KEX_ECDH_INIT then None else
    var blobLength := U32(packet, 6);
    if 10 + blobLength > payloadEnd then None else Some((10, blobLength))
  }

  /** A KEX_ECDH_INIT packet followed by `tail`: the public value, anything after it in the payload, and padding. */
  datatype EcdhInit = EcdhInit(blob: bytes, rest: bytes, padding: bytes, tail: bytes) {
    function Size(): nat {
      6 + |blob| + |rest| + |padding|
    }

    predicate Valid() {
      |padding| < 0x100 && Size() < 0x1_0000_0000
    }

    function Print(): bytes
      requires Valid()
    {
      (B4(Size()) + [|padding|, 30]) + B4(|blob|) + blob + rest + (padding + tail)
    }
  }

  /** The locator finds the public value of every printed packet. */
  lemma EcdhInitFound(k: EcdhInit)
    requires k.Valid()
    ensures FindKexEcdhInit(k.Print()) == Some((10, |k.blob|)) && k.Print()[10..10 + |k.blob|] == k.blob
  {
    hide B4;
    var packet := k.Print();
    var front := B4(k.Size()) + [|k.padding|, SSH_MSG_KEX_ECDH_INIT];
    assert packet[0..6] == front && U32(front, 0) == k.Size();
    assert U32(packet, 0) == U32(packet[0..6], 0) && packet[4] == packet[0..6][4] && packet[5] == packet[0..6][5];
    assert packet[6..10] == B4(|k.blob|);
    assert U32(packet, 6) == U32(packet[6..10], 0);
  }

  /** And it finds one only in a printed packet. */
  lemma EcdhInitIsPrinted(packet: bytes) returns (k: EcdhInit)
    requires FindKexEcdhInit(packet).Some?
    ensures k.Valid() && k.Print() == packet && FindKexEcdhInit(packet) == Some((10, |k.blob|))
  {
    hide B4;
    var e := 4 + U32(packet, 0);
    var p, b := e - packet[4] as int, 10 + U32(packet, 6);
    k := EcdhInit(packet[10..b], packet[b..p], packet[p..e], packet[e..]);
    B4OfU32(packet, 0);
    B4OfU32(packet, 6);
    assert packet[..6] == packet[0..4] + [packet[4], packet[5]];
    assert packet[p..] == packet[p..e] + packet[e..];
    Cut5(packet, 6, 10, b, p);
  }

  predicate Forgeable(packet: bytes) {
    && FindKexEcdhInit(packet).Some?
    && FindKexEcdhInit(packet).value.1 >= SNTRUP761_PUBLICKEY_BYTES + X25519_BYTES
  }

  function ForgeSsh(packet: bytes): Result<bytes> {
    if Forgeable(packet) then Ok(Flip(packet, 10, SNTRUP761_PUBLICKEY_BYTES)) else Err(ValueError)
  }

  /** `forge_ssh_pq_component`. */
  method ForgeSshPqComponent(packet: bytes) returns (r: Result<bytes>)
    ensures r == ForgeSsh(packet)
  {
    var located := FindKexEcdhInit(packet);
    if located.None? {
      return Err(ValueError);
    }
    var (blobOffset, blobLength) := located.value;
    if blobLength < SNTRUP761_PUBLICKEY_BYTES + X25519_BYTES {
      return Err(ValueError);
    }
    var forged := FlipCopy(packet, blobOffset, SNTRUP761_PUBLICKEY_BYTES);
    return Ok(forged);
  }

  /** Forging keeps the located public value where and as long as it was, complements exactly its first 1158
      bytes, keeps at least the 32 bytes of the X25519 half after them, and undoes itself. */
  lemma ForgeSshFraming(packet: bytes)
    requires ForgeSsh(packet).Ok?
    ensures var out, (offset, length) := ForgeSsh(packet).value, FindKexEcdhInit(packet).value;
            && |out| == |packet| && out != packet && FindKexEcdhInit(out) == FindKexEcdhInit(packet)
            && offset + 1158 + 32 <= offset + length <= |packet|
            && (forall i :: 0 <= i < |packet| ==>
                  out[i] == if offset <= i < offset + 1158 then Complement(packet[i]) else packet[i])
            && out[offset + 1158..offset + length] == packet[offset + 1158..offset + length]
            && ForgeSsh(out) == Ok(packet)
  {
    var out := ForgeSsh(packet).value;
    assert forall i :: 0 <= i < 10 ==> out[i] == packet[i];
    assert out[10] == Complement(packet[10]);
    FlipTwice(packet, 10, SNTRUP761_PUBLICKEY_BYTES);
  }

  /** Which bytes are forged: a complete packet with message number 30 whose public value lies in the payload and holds
      at least the 1158 bytes of an sntrup761 key and the 32 bytes of an X25519 key.  Any other raises `ValueError`. */
  lemma ForgeSshExact(packet: bytes)
    ensures ForgeSsh(packet).Ok? <==>
              && |packet| >= 10 && 4 + U32(packet, 0) <= |packet| && packet[5] == 30
              && 10 + U32(packet, 6) + packet[4] <= 4 + U32(packet, 0) && U32(packet, 6) >= 1190
    ensures ForgeSsh(packet).Err? ==> ForgeSsh(packet) == Err(ValueError)
  {
  }

  /** A printed packet is forged exactly when its public value is that long, by complementing the first 1158 bytes of
      the value and nothing else. */
  lemma ForgeSshPrinted(k: EcdhInit)
    requires k.Valid()
    ensures ForgeSsh(k.Print()).Ok? <==> |k.blob| >= 1190
    ensures |k.blob| >= 1190 ==>
              ForgeSsh(k.Print()) == Ok(k.(blob := Flip(k.blob[..1158], 0, 1158) + k.blob[1158..]).Print())
  {
    hide B4, Flip, FindKexEcdhInit;
    EcdhInitFound(k);
    if |k.blob| >= 1190 {
      var front := (B4(k.Size()) + [|k.padding|, 30]) + B4(|k.blob|);
      var back := k.rest + (k.padding + k.tail);
      assert k.Print() == front + k.blob + back;
      FlipInside(front, k.blob, back, 0, 1158);
      FlipParts(k.blob, 0, 1158);
      var forged := Flip(k.blob[..1158], 0, 1158) + k.blob[1158..];
      var flipped := Flip(k.blob[..1158], 0, 1158);
      assert k.blob[0..1158] == k.blob[..1158] && k.blob[..0] + flipped == flipped;
      assert k.(blob := forged).Print() == front + forged + back;
    }
  }

  // ---- KEXINIT

  /** A KEXINIT packet followed by `tail`: message number and cookie, first name-list, the rest of the payload
      and the padding. */
  datatype Kexinit = Kexinit(head: bytes, names: bytes, rest: bytes, padding: bytes, tail: bytes) {
    function Size(): nat {
      22 + |names| + |rest| + |padding|
    }

    predicate Valid() {
      && |head| == 17 && head[0] == 20 && |padding| < 0x100
      && Size() < 0x1_0000_0000
    }

    function Print(): bytes
      requires Valid()
    {
      (B4(Size()) + [|padding|] + head) + B4(|names|) + names + rest + (padding + tail)
    }
  }

  /** `_kexinit_algorithm_bounds`: ends of the name-list, of the payload and of the packet. */
  function KexinitBounds(packet: bytes): Option<(nat, nat, nat)> {
    if |packet| < 26 then None else
    var packetEnd := 4 + U32(packet, 0);
    var payloadEnd := packetEnd - packet[4] as int;
    if packetEnd > |packet| || payloadEnd < 26 || packet[5] != SSH_MSG_KEXINIT then None else
    var algorithmsEnd := 26 + U32(packet, 22);
    if algorithmsEnd > payloadEnd then None else Some((algorithmsEnd, payloadEnd, packetEnd))
  }

  function KexinitOf(packet: bytes): Kexinit
    requires KexinitBounds(packet).Some?
  {
    var (algorithmsEnd, payloadEnd, packetEnd) := KexinitBounds(packet).value;
    Kexinit(packet[5..22], packet[26..algorithmsEnd], packet[algorithmsEnd..payloadEnd],
            packet[payloadEnd..packetEnd], packet[packetEnd..])
  }

  lemma PrintKexinitOf(packet: bytes)
    requires KexinitBounds(packet).Some?
    ensures KexinitOf(packet).Valid() && KexinitOf(packet).Print() == packet
  {
    hide B4;
    var (a, p, e) := KexinitBounds(packet).value;
    B4OfU32(packet, 0);
    B4OfU32(packet, 22);
    assert packet[..22] == packet[0..4] + [packet[4]] + packet[5..22];
    assert packet[p..] == packet[p..e] + packet[e..];
    Cut5(packet, 22, 26, a, p);
  }

  lemma KexinitFields(k: Kexinit)
    requires k.Valid()
    ensures var packet := k.Print();
            && |packet| == 4 + k.Size() + |k.tail|
            && U32(packet, 0) == k.Size() && packet[4] == |k.padding| && packet[5] == SSH_MSG_KEXINIT
            && packet[5..22] == k.head && U32(packet, 22) == |k.names|
  {
    hide B4;
    var packet := k.Print();
    var front := B4(k.Size()) + [|k.padding|] + k.head;
    assert packet[0..22] == front && U32(front, 0) == k.Size() && front[4] == |k.padding| && front[5..22] == k.head;
    SliceOfSlice(packet, 0, 22, 5, 22);
    assert U32(packet, 0) == U32(packet[0..22], 0) && packet[4] == packet[0..22][4] && packet[5] == packet[5..22][0];
    assert packet[22..26] == B4(|k.names|);
    assert U32(packet, 22) == U32(packet[22..26], 0);
  }

  lemma KexinitSlices(k: Kexinit)
    requires k.Valid()
    ensures var packet, a := k.Print(), 26 + |k.names|;
            var p := a + |k.rest|;
            var e := p + |k.padding|;
            && e <= |packet| && packet[26..a] == k.names && packet[a..p] == k.rest
            && packet[p..e] == k.padding && packet[e..] == k.tail
  {
    hide B4;
    var packet, end := k.Print(), k.padding + k.tail;
    var front := (B4(k.Size()) + [|k.padding|] + k.head) + B4(|k.names|);
    assert packet == front + k.names + k.rest + end && |front| == 26;
  }

  lemma KexinitOfPrint(k: Kexinit)
    requires k.Valid()
    ensures KexinitBounds(k.Print()).Some? && KexinitOf(k.Print()) == k
  {
    hide B4, Kexinit.Print;
    KexinitFields(k);
    KexinitSlices(k);
  }

  // ---- ASCII

  predicate IsAscii(b: bytes) {
    forall i :: 0 <= i < |b| ==> b[i] < 0x80
  }

  /** The text that ASCII bytes encode. */
  function Chars(b: bytes): string
    requires IsAscii(b)
  {
    seq(|b|, i requires 0 <= i < |b| => b[i] as char)
  }

  predicate IsAsciiText(text: string) {
    forall i :: 0 <= i < |text| ==> text[i] as int < 0x80
  }

  /** The bytes that encode ASCII text. */
  function Octets(text: string): bytes
    requires IsAsciiText(text)
  {
    seq(|text|, i requires 0 <= i < |text| => text[i] as int)
  }

  lemma CharsAndOctets(b: bytes, text: string)
    ensures IsAscii(b) ==> IsAsciiText(Chars(b)) && Octets(Chars(b)) == b
    ensures IsAsciiText(text) ==> IsAscii(Octets(text)) && Chars(Octets(text)) == text
  {
  }

  lemma {:induction false} JoinIsAscii(names: seq<string>)
    requires forall i :: 0 <= i < |names| ==> IsAsciiText(names[i])
    ensures IsAsciiText(Join(names))
  {
    if |names| > 1 {
      JoinIsAscii(names[1..]);
    }
  }

  lemma {:induction false} SplitIsAscii(text: string)
    requires IsAsciiText(text)
    ensures forall i :: 0 <= i < |Split(text)| ==> IsAsciiText(Split(text)[i])
  {
    if text != "" {
      SplitIsAscii(text[1..]);
    }
  }

  lemma StrippedIsAscii(text: string, name: string)
    requires IsAsciiText(text)
    ensures IsAsciiText(Join(Without(Names(text), name)))
  {
    hide Split, Join, IsAsciiText;
    SplitIsAscii(text);
    var kept := Without(Names(text), name);
    Filter.DropIsSubset(Names(text), Is(name));
    forall i | 0 <= i < |kept|
      ensures IsAsciiText(kept[i])
    {
      assert kept[i] in Names(text);
    }
    JoinIsAscii(kept);
  }

  // ---- removing an algorithm

  /** `kexinit_algorithms`.  A byte outside ASCII raises `UnicodeDecodeError`, which is a `ValueError`. */
  function KexinitAlgorithms(packet: bytes): Result<seq<string>> {
    if KexinitBounds(packet).None? then Err(ValueError) else
    var encoded := packet[26..KexinitBounds(packet).value.0];
    if IsAscii(encoded) then Ok(Names(Chars(encoded))) else Err(ValueError)
  }

  /** What the name-list field holds after the removal. */
  function Replacement(packet: bytes, algorithm: string): bytes
    requires KexinitAlgorithms(packet).Ok?
  {
    var text := Chars(KexinitOf(packet).names);
    CharsAndOctets(KexinitOf(packet).names, "");
    StrippedIsAscii(text, algorithm);
    Octets(Join(Without(Names(text), algorithm)))
  }

  lemma ReplacementFacts(packet: bytes, algorithm: string)
    requires KexinitAlgorithms(packet).Ok?
    ensures var names, replacement := KexinitAlgorithms(packet).value, Replacement(packet, algorithm);
            && IsAscii(replacement) && Chars(replacement) == Join(Without(names, algorithm))
            && |replacement| <= |KexinitOf(packet).names|
            && (algorithm in names ==> |replacement| < |KexinitOf(packet).names|)
            && (replacement != KexinitOf(packet).names <==> algorithm in names)
            && NoCommas(names) && names != [""]
  {
    hide Join, Without, Names, Chars, Octets, KexinitBounds;
    var original, text := KexinitOf(packet).names, Chars(KexinitOf(packet).names);
    CharsAndOctets(original, "");
    StrippedIsAscii(text, algorithm);
    CharsAndOctets([], Join(Without(Names(text), algorithm)));
    JoinNames(text);
    JoinShrinks(Names(text), algorithm);
    CharsSize(original);
    OctetsSize(Join(Without(Names(text), algorithm)));
  }

  lemma CharsSize(b: bytes)
    requires IsAscii(b)
    ensures |Chars(b)| == |b|
  {
  }

  lemma OctetsSize(text: string)
    requires IsAsciiText(text)
    ensures |Octets(text)| == |text|
  {
  }

  lemma ReplacementFits(packet: bytes, algorithm: string)
    requires KexinitAlgorithms(packet).Ok?
    ensures var (algorithmsEnd, payloadEnd, packetEnd) := KexinitBounds(packet).value;
            && 22 + |Replacement(packet, algorithm)| + packetEnd - algorithmsEnd < 0x1_0000_0000
            && packetEnd - payloadEnd < 0x100
  {
    hide Replacement, B4;
    ReplacementFacts(packet, algorithm);
    B4OfU32(packet, 0);
  }

  /** `strip_kexinit_algorithm`: one packet with the shorter name-list, and nothing after it. */
  function StripKexinit(packet: bytes, algorithm: string): Result<bytes> {
    if KexinitBounds(packet).None? then Err(ValueError) else
    var (algorithmsEnd, payloadEnd, packetEnd) := KexinitBounds(packet).value;
    var names :- KexinitAlgorithms(packet);
    var replacement := Replacement(packet, algorithm);
    if replacement == packet[26..algorithmsEnd] then Ok(packet) else
    ReplacementFits(packet, algorithm);
    var payload := packet[5..22] + B4(|replacement|) + replacement + packet[algorithmsEnd..payloadEnd];
    var padding := packet[payloadEnd..packetEnd];
    Ok(B4(1 + |payload| + |padding|) + [|padding|] + payload + padding)
  }

  lemma StripKexinitPrints(packet: bytes, algorithm: string)
    requires KexinitAlgorithms(packet).Ok?
    ensures var names, k := KexinitAlgorithms(packet).value,
                            KexinitOf(packet).(names := Replacement(packet, algorithm), tail := []);
            && k.Valid()
            && StripKexinit(packet, algorithm) == if algorithm in names then Ok(k.Print()) else Ok(packet)
  {
    hide B4, Replacement, KexinitBounds;
    ReplacementFacts(packet, algorithm);
    PrintKexinitOf(packet);
    var k := KexinitOf(packet).(names := Replacement(packet, algorithm), tail := []);
    if algorithm in KexinitAlgorithms(packet).value {
      var payload := k.head + B4(|k.names|) + k.names + k.rest;
      assert 1 + |payload| + |k.padding| == k.Size();
      assert k.Print() == B4(k.Size()) + [|k.padding|] + payload + k.padding;
    }
  }

  /** Whether the rewriter raises does not depend on the algorithm. */
  lemma SshStripRaises(packet: bytes, algorithm: string)
    ensures StripKexinit(packet, algorithm).Ok? <==> KexinitAlgorithms(packet).Ok?
    ensures StripKexinit(packet, algorithm).Ok? <==> KexinitBounds(packet).Some? && IsAscii(KexinitOf(packet).names)
    ensures StripKexinit(packet, algorithm).Err? ==> StripKexinit(packet, algorithm) == Err(ValueError)
  {
    hide Replacement, B4, Chars;
  }

  /** Which bytes the rewriter accepts: a complete packet with message number 20 whose first name-list lies in the
      payload and is ASCII. */
  lemma SshStripAccepts(packet: bytes, algorithm: string)
    ensures StripKexinit(packet, algorithm).Ok? <==>
              && |packet| >= 26 && 4 + U32(packet, 0) <= |packet| && packet[5] == 20
              && 26 + U32(packet, 22) + packet[4] <= 4 + U32(packet, 0)
              && forall i :: 26 <= i < 26 + U32(packet, 22) ==> packet[i] < 0x80
  {
    hide StripKexinit, B4;
    SshStripRaises(packet, algorithm);
    if KexinitBounds(packet).Some? {
      var end := KexinitBounds(packet).value.0;
      assert KexinitOf(packet).names == packet[26..end];
      assert forall i :: 26 <= i < end ==> packet[i] == packet[26..end][i - 26];
    }
  }

  lemma AlgorithmsOfPrint(k: Kexinit)
    requires k.Valid() && IsAscii(k.names)
    ensures KexinitAlgorithms(k.Print()) == Ok(Names(Chars(k.names)))
  {
    hide Kexinit.Print, Names, Chars, IsAscii;
    KexinitOfPrint(k);
  }

  /** The packet changes exactly when it lists the algorithm.  Cookie, remaining payload and padding stay, the
      length field of a changed packet covers it exactly, and a second removal changes nothing.  The name-list
      reads back as the original without the algorithm if and only if more or less than one empty name is left:
      one alone reads back as no name. */
  lemma SshStripLaw(packet: bytes, algorithm: string)
    requires KexinitAlgorithms(packet).Ok?
    ensures StripKexinit(packet, algorithm).Ok?
    ensures var out, names := StripKexinit(packet, algorithm).value, KexinitAlgorithms(packet).value;
            && (out != packet <==> algorithm in names) && |out| <= |packet|
            && (out != packet ==> |out| < |packet|)
            && KexinitBounds(out).Some? && KexinitBounds(packet).Some?
            && KexinitOf(out).head == KexinitOf(packet).head && KexinitOf(out).rest == KexinitOf(packet).rest
            && KexinitOf(out).padding == KexinitOf(packet).padding
            && (out != packet ==> 4 + U32(out, 0) == |out|)
            && KexinitAlgorithms(out) == Ok(if LeavesOneEmpty(names, algorithm) then [] else Without(names, algorithm))
            && (KexinitAlgorithms(out) == Ok(Without(names, algorithm)) <==> !LeavesOneEmpty(names, algorithm))
            && StripKexinit(out, algorithm) == Ok(out)
  {
    hide Replacement, Kexinit.Print, Kexinit.Valid, LeavesOneEmpty, Without, Names, Chars, Join, B4, IsAscii;
    var names := KexinitAlgorithms(packet).value;
    ReplacementFacts(packet, algorithm);
    StripKexinitPrints(packet, algorithm);
    LeavesOneEmptyExact(names, algorithm);
    PrintKexinitOf(packet);
    if algorithm in names {
      var k := KexinitOf(packet).(names := Replacement(packet, algorithm), tail := []);
      KexinitOfPrint(k);
      KexinitFields(k);
      KexinitFields(KexinitOf(packet));
      AlgorithmsOfPrint(k);
      WithoutNoCommas(names, algorithm);
      NamesOfJoin(Without(names, algorithm));
      WithoutCommutes(names, algorithm, algorithm);
      assert algorithm !in KexinitAlgorithms(k.Print()).value;
      StripKexinitPrints(k.Print(), algorithm);
      assert k.Print() != packet;
    } else {
      WithoutAbsent(names, algorithm);
    }
  }

  lemma JoinTwice(names: seq<string>, name: string)
    ensures Join(Without(if names == [""] then [] else names, name)) == Join(Without(names, name))
  {
    WithoutCons("", [], name);
    assert [""] == [""] + [];
  }

  /** Two removals in a row, in closed form. */
  lemma StripKexinitTwice(packet: bytes, a: string, b: string)
    requires KexinitAlgorithms(packet).Ok?
    ensures StripKexinit(packet, a).Ok?
    ensures var names, text := KexinitAlgorithms(packet).value,
                               Join(Without(Without(KexinitAlgorithms(packet).value, a), b));
            && IsAsciiText(text)
            && var k := KexinitOf(packet).(names := Octets(text), tail := []);
            && k.Valid()
            && StripKexinit(StripKexinit(packet, a).value, b)
               == if a in names || b in names then Ok(k.Print()) else Ok(packet)
  {
    hide Kexinit.Print, Kexinit.Valid, Without, Names, Chars, Octets, Join, B4, IsAscii, IsAsciiText, KexinitOf,
         KexinitBounds, StripKexinit, Replacement, LeavesOneEmpty;
    var names := KexinitAlgorithms(packet).value;
    StripKexinitPrints(packet, a);
    var out := StripKexinit(packet, a).value;
    ReplacementFacts(packet, a);
    SshStripLaw(packet, a);
    LeavesOneEmptyExact(names, a);
    StripKexinitPrints(out, b);
    ReplacementFacts(out, b);
    CharsAndOctets(Replacement(out, b), "");
    JoinTwice(Without(names, a), b);
    if a in names {
      KexinitOfPrint(KexinitOf(packet).(names := Replacement(packet, a), tail := []));
    } else {
      WithoutAbsent(names, a);
    }
  }

  /** Removals of two algorithms commute on every packet the rewriter accepts, empty names included. */
  lemma SshStripCommutes(packet: bytes, a: string, b: string)
    requires KexinitAlgorithms(packet).Ok?
    ensures StripKexinit(packet, a).Ok? && StripKexinit(packet, b).Ok?
    ensures StripKexinit(StripKexinit(packet, a).value, b) == StripKexinit(StripKexinit(packet, b).value, a)
  {
    hide Kexinit.Print, Without, Names, Chars, Octets, Join, StripKexinit, KexinitAlgorithms, KexinitOf;
    StripKexinitTwice(packet, a, b);
    StripKexinitTwice(packet, b, a);
    WithoutCommutes(KexinitAlgorithms(packet).value, a, b);
  }

  /** A packet on which the name-list law fails: removing `a` from `,a` leaves one empty name, which is lost. */
  lemma EmptyNameIsLost(k: Kexinit)
    requires k.Valid() && k.names == [0x2C, 0x61]
    ensures KexinitAlgorithms(k.Print()) == Ok(["", "a"])
    ensures StripKexinit(k.Print(), "a").Ok?
    ensures KexinitAlgorithms(StripKexinit(k.Print(), "a").value) == Ok([])
    ensures Without(["", "a"], "a") == [""]
  {
    hide Kexinit.Print, Kexinit.Valid, StripKexinit, KexinitBounds, KexinitOf;
    var text := Chars(k.names);
    assert text == ",a";
    SplitWord("a");
    SplitCons("", "a");
    assert "" + "," + "a" == ",a" && [""] + ["a"] == ["", "a"];
    AlgorithmsOfPrint(k);
    KexinitOfPrint(k);
    SshStripRaises(k.Print(), "a");
    var names := ["", "a"];
    assert names[0] == "" && OthersAre(names, 0, "a");
    SshStripLaw(k.Print(), "a");
    OneEmptyLeft(names, "a", 0);
  }
}

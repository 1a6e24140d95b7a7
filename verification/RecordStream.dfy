/** What a chunk holds beyond the record or packet it starts with: the rewriters look at its first record only, and a
    server reads them all. */
module RecordStream {
  import opened Bytes
  import opened Extensions
  import opened ClientHelloFrame
  import opened ClientHelloStrip
  import opened CaptureStability
  import NameList
  import opened SshKex

  // ---- TLS records

  /** The bytes start with a well-formed ClientHello record that names `g`. */
  predicate Names(record: bytes, g: int) {
    Meaning(record).Ok? && AnyMentions(Meaning(record).value, g)
  }

  /** The size of the record that the bytes start with, if it is complete (RFC 8446 section 5.1). */
  function RecordSize(d: bytes): Option<nat> {
    if |d| < 5 || 5 + U16(d, 3) > |d| then None else Some(5 + U16(d, 3))
  }

  /** The complete records of a byte stream, in order. */
  function Records(d: bytes): seq<bytes>
    decreases |d|
  {
    match RecordSize(d)
    case None => []
    case Some(n) => [d[..n]] + Records(d[n..])
  }

  /** What is left of the stream after its last complete record. */
  function Remainder(d: bytes): (rest: bytes)
    ensures RecordSize(rest).None?
    decreases |d|
  {
    match RecordSize(d)
    case None => d
    case Some(n) => Remainder(d[n..])
  }

  predicate AnyNames(records: seq<bytes>, g: int) {
    exists i :: 0 <= i < |records| && Names(records[i], g)
  }

  /** All but the first. */
  function Later<T>(s: seq<T>): seq<T> {
    if s == [] then [] else s[1..]
  }

  /** What the stripping mutator makes of a chunk. */
  function Stripped(d: bytes, g: int): bytes {
    if Strip(d, g).Ok? then Strip(d, g).value else d
  }

  /** Where the records of the first part end, the others start. */
  lemma {:induction false} RecordsConcat(a: bytes, b: bytes)
    ensures Records(a + b) == Records(a) + Records(Remainder(a) + b)
    decreases |a|
  {
    if RecordSize(a).Some? {
      var n := RecordSize(a).value;
      assert U16(a + b, 3) == U16(a, 3);
      assert (a + b)[..n] == a[..n] && (a + b)[n..] == a[n..] + b;
      RecordsConcat(a[n..], b);
    }
  }

  /** A ClientHello is located in the first record alone, and what follows that record is the tail of the frame. */
  lemma LocatedInFirst(d: bytes)
    ensures RecordSize(d).None? ==> !Located(d)
    ensures RecordSize(d).Some? ==>
              var n := RecordSize(d).value;
              && (Located(d) <==> Located(d[..n]))
              && (Located(d) ==> FrameOf(d[..n]) == FrameOf(d).(tail := []) && FrameOf(d).tail == d[n..])
  {
    hide ClientHelloExtensions;
    if Located(d) {
      var (start, end) := Bounds(d);
      var first := d[..RecordSize(d).value];
      assert forall i :: 0 <= i < |first| ==> first[i] == d[i];
      assert Framed(first, start, end);
      LocatorExact(first, start, end);
      SameFrame(d);
    } else if RecordSize(d).Some? {
      var n := RecordSize(d).value;
      assert d == d[..n] + d[n..];
      if Located(d[..n]) {
        LocatorStable(d[..n], d[n..]);
      }
    }
  }

  lemma SameFrame(d: bytes)
    requires Located(d) && RecordSize(d).Some? && Located(d[..RecordSize(d).value])
    requires Bounds(d) == Bounds(d[..RecordSize(d).value])
    ensures var n := RecordSize(d).value;
            FrameOf(d[..n]) == FrameOf(d).(tail := []) && FrameOf(d).tail == d[n..]
  {
    hide ClientHelloExtensions;
    var n := RecordSize(d).value;
    var first := d[..n];
    assert forall i :: 0 <= i < n ==> first[i] == d[i];
    assert forall a, b :: 0 <= a <= b <= n ==> first[a..b] == d[a..b];
  }

  lemma MeaningOfFirst(d: bytes)
    ensures RecordSize(d).None? ==> Meaning(d) == Err(ValueError)
    ensures RecordSize(d).Some? ==> Meaning(d[..RecordSize(d).value]) == Meaning(d)
    ensures Meaning(d).Ok? ==> Located(d)
  {
    hide ClientHelloExtensions, FrameOf, RecordSize, AllFit;
    LocatedInFirst(d);
    MeaningPrints(d);
  }

  lemma PrintTail(f: Frame)
    requires f.Valid()
    ensures f.(tail := []).Valid() && f.Print() == f.(tail := []).Print() + f.tail
    ensures RecordSize(f.Print()) == Some(|f.(tail := []).Print()|)
  {
    hide Frame.Head, Frame.Prefix, B2;
    var g := f.(tail := []);
    HeadFields(f);
    HeadFields(g);
    assert g.Head() == f.Head() && g.Prefix() == f.Prefix() by { SameHead(f); }
    assert f.Rest() == g.Rest() + f.tail;
  }

  lemma SameHead(f: Frame)
    requires f.Valid()
    ensures var g := f.(tail := []); g.Valid() && g.Head() == f.Head() && g.Prefix() == f.Prefix()
  {
  }

  /** Stripping a chunk is stripping its first record and keeping the bytes after it. */
  lemma StripFirst(d: bytes, g: int)
    ensures match RecordSize(d)
            case None => Stripped(d, g) == d
            case Some(n) =>
              && Stripped(d, g) == Stripped(d[..n], g) + d[n..]
              && RecordSize(Stripped(d, g)) == Some(|Stripped(d[..n], g)|)
  {
    hide ClientHelloExtensions, FrameOf, Meaning, RemoveAll, AnyMentions, Frame.Print, Frame.Valid, AllFit, Smaller;
    MeaningOfFirst(d);
    StripAcceptance(d, g);
    if Names(d, g) {
      var n, xs := RecordSize(d).value, RemoveAll(Meaning(d).value, g);
      LocatedInFirst(d);
      StripMeaning(d, g);
      RemovalIsSmaller(d, g);
      RemovalIsSmaller(d[..n], g);
      MeaningOfRewrite(FrameOf(d), xs);
      PrintTail(Rewrite(FrameOf(d), xs));
    } else if RecordSize(d).Some? {
      var n := RecordSize(d).value;
      assert d == d[..n] + d[n..];
    }
  }

  /** The records of a stripped chunk are those of the chunk with the first one stripped. */
  lemma StrippedRecords(d: bytes, g: int)
    ensures Records(Stripped(d, g)) == if Records(d) == [] then [] else [Stripped(Records(d)[0], g)] + Later(Records(d))
  {
    hide Stripped;
    StripFirst(d, g);
    if RecordSize(d).Some? {
      var n := RecordSize(d).value;
      var first := Stripped(d[..n], g);
      assert (first + d[n..])[..|first|] == first && (first + d[n..])[|first|..] == d[n..];
    }
  }

  lemma StrippedNames(d: bytes, g: int)
    ensures !Names(Stripped(d, g), g)
    ensures Stripped(d, g) != d <==> Names(d, g)
  {
    hide Meaning, AnyMentions, RemoveAll, Strip;
    StripAcceptance(d, g);
    if Strip(d, g).Ok? {
      StripLengths(d, g);
      StripMeaning(d, g);
    }
  }

  /** No record of the stripped chunk names `g` if and only if no record after the first one of the chunk did. */
  lemma SurvivingRecords(d: bytes, g: int)
    ensures AnyNames(Records(Stripped(d, g)), g) <==> AnyNames(Later(Records(d)), g)
  {
    hide Stripped, Names, Records;
    StrippedRecords(d, g);
    if Records(d) != [] {
      var first, later := Stripped(Records(d)[0], g), Later(Records(d));
      StrippedNames(Records(d)[0], g);
      assert forall i :: 0 <= i < |later| ==> ([first] + later)[i + 1] == later[i];
    }
  }

  /** The first fragment of a ClientHello that continues in another record passes as it is (RFC 8446 section 5.1 allows
      such records): the rewriter refuses a handshake message that is longer than its record. */
  lemma FragmentPasses(d: bytes, g: int)
    requires |d| >= 9 && 9 + U24(d, 6) > 5 + U16(d, 3)
    ensures Stripped(d, g) == d && !Names(d, g)
  {
    if Located(d) {
      var (start, end) := Bounds(d);
      assert false;
    }
  }

  // ---- SSH packets

  /** The bytes start with a KEXINIT packet that lists `algorithm`. */
  predicate Lists(packet: bytes, algorithm: string) {
    KexinitAlgorithms(packet).Ok? && algorithm in KexinitAlgorithms(packet).value
  }

  /** The size of the packet that the bytes start with, if it is complete (RFC 4253 section 6). */
  function PacketSize(d: bytes): Option<nat> {
    if |d| < 4 || 4 + U32(d, 0) > |d| then None else Some(4 + U32(d, 0))
  }

  function Packets(d: bytes): seq<bytes>
    decreases |d|
  {
    match PacketSize(d)
    case None => []
    case Some(n) => [d[..n]] + Packets(d[n..])
  }

  function PacketRemainder(d: bytes): bytes
    decreases |d|
  {
    match PacketSize(d)
    case None => d
    case Some(n) => PacketRemainder(d[n..])
  }

  lemma {:induction false} PacketsConcat(a: bytes, b: bytes)
    ensures Packets(a + b) == Packets(a) + Packets(PacketRemainder(a) + b)
    decreases |a|
  {
    if PacketSize(a).Some? {
      var n := PacketSize(a).value;
      assert U32(a + b, 0) == U32(a, 0);
      assert (a + b)[..n] == a[..n] && (a + b)[n..] == a[n..] + b;
      PacketsConcat(a[n..], b);
    }
  }

  const LINE_FEED: byte := 0x0A

  /** What follows the version banner, the line a client starts with (RFC 4253 section 4.2), once it is complete. */
  function AfterBanner(d: bytes): Option<bytes> {
    if d == [] then None
    else if d[0] == LINE_FEED then Some(d[1..])
    else AfterBanner(d[1..])
  }

  /** The packets a server reads from a client: those after the banner. */
  function SshPackets(d: bytes): seq<bytes> {
    match AfterBanner(d)
    case None => []
    case Some(rest) => Packets(rest)
  }

  lemma {:induction false} AfterBannerConcat(a: bytes, b: bytes)
    ensures AfterBanner(a + b)
            == match AfterBanner(a)
               case None => AfterBanner(b)
               case Some(rest) => Some(rest + b)
  {
    if a == [] {
      assert a + b == b;
    } else {
      assert (a + b)[1..] == a[1..] + b;
      AfterBannerConcat(a[1..], b);
    }
  }

  lemma {:induction false} AfterBannerOfLine(line: bytes, rest: bytes)
    requires LINE_FEED !in line
    ensures AfterBanner(line + [LINE_FEED] + rest) == Some(rest)
  {
    var d := line + [LINE_FEED] + rest;
    if line == [] {
      assert d[1..] == rest;
    } else {
      assert d[1..] == line[1..] + [LINE_FEED] + rest;
      AfterBannerOfLine(line[1..], rest);
    }
  }

  predicate AnyLists(packets: seq<bytes>, algorithm: string) {
    exists i :: 0 <= i < |packets| && Lists(packets[i], algorithm)
  }

  function SshStripped(d: bytes, algorithm: string): bytes {
    if StripKexinit(d, algorithm).Ok? then StripKexinit(d, algorithm).value else d
  }

  lemma ListsInFirst(d: bytes, algorithm: string)
    ensures Lists(d, algorithm) <==> Packets(d) != [] && Lists(Packets(d)[0], algorithm)
  {
    hide Packets, IsAscii, Chars, NameList.Names;
    PacketsFirst(d);
    if PacketSize(d).Some? {
      var n := PacketSize(d).value;
      var first := d[..n];
      assert forall i :: 0 <= i < n ==> first[i] == d[i];
      assert KexinitBounds(d) == KexinitBounds(first);
      if KexinitBounds(d).Some? {
        assert d[26..KexinitBounds(d).value.0] == first[26..KexinitBounds(d).value.0];
      }
    }
  }

  lemma PacketsFirst(d: bytes)
    ensures Packets(d) == [] <==> PacketSize(d).None?
    ensures PacketSize(d).Some? ==> Packets(d)[0] == d[..PacketSize(d).value]
  {
  }

  lemma SshStrippedLists(d: bytes, algorithm: string)
    ensures !Lists(SshStripped(d, algorithm), algorithm)
    ensures SshStripped(d, algorithm) != d <==> Lists(d, algorithm)
    ensures Lists(d, algorithm) ==> |SshStripped(d, algorithm)| < |d|
  {
    hide StripKexinit, KexinitBounds, KexinitOf, NameList.LeavesOneEmpty, NameList.Without;
    SshStripRaises(d, algorithm);
    if KexinitAlgorithms(d).Ok? {
      SshStripLaw(d, algorithm);
      NameList.WithoutCommutes(KexinitAlgorithms(d).value, algorithm, algorithm);
    }
  }

  /** A changed chunk is one packet: the packets that followed in the same chunk are lost. */
  lemma SshStrippedPackets(d: bytes, algorithm: string)
    ensures Packets(SshStripped(d, algorithm))
            == if Lists(d, algorithm) then [SshStripped(d, algorithm)] else Packets(d)
  {
    hide StripKexinit, KexinitBounds, KexinitOf, NameList.LeavesOneEmpty, NameList.Without;
    SshStrippedLists(d, algorithm);
    if Lists(d, algorithm) {
      SshStripRaises(d, algorithm);
      SshStripLaw(d, algorithm);
      var out := SshStripped(d, algorithm);
      assert out[..|out|] == out && out[|out|..] == [];
    }
  }

  /** Read as packets from its first byte on, a stripped chunk lists the algorithm nowhere if and only if the first
      packet of the chunk did, and so the others are gone, or no packet after the first one does.  A chunk that starts
      with the banner holds no packet when read so. */
  lemma SurvivingPackets(d: bytes, algorithm: string)
    ensures !AnyLists(Packets(SshStripped(d, algorithm)), algorithm)
            <==> Lists(d, algorithm) || !AnyLists(Later(Packets(d)), algorithm)
  {
    hide SshStripped, Packets, Lists;
    SshStrippedPackets(d, algorithm);
    SshStrippedLists(d, algorithm);
    ListsInFirst(d, algorithm);
    if !Lists(d, algorithm) && Packets(d) != [] {
      var packets := Packets(d);
      assert forall i :: 1 <= i < |packets| ==> packets[i] == Later(packets)[i - 1];
      assert forall i :: 0 <= i < |packets| - 1 ==> Later(packets)[i] == packets[i + 1];
    }
  }

  /** The most bytes one `recv` of the relay returns. */
  const RECEIVE_LIMIT := 16 * 1024

  /** A chunk that starts with a version banner, or with any byte but zero, passes as it is, whatever KEXINIT follows in
      the same chunk: read as a packet length, its first bytes exceed every chunk. */
  lemma BannerPasses(d: bytes, algorithm: string)
    requires 0 < |d| <= RECEIVE_LIMIT && d[0] != 0
    ensures SshStripped(d, algorithm) == d && Packets(d) == []
  {
    if |d| >= 4 {
      assert U32(d, 0) >= 0x100_0000;
    }
  }
}

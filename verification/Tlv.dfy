/** Type-length-value lists with two-byte tags and two-byte lengths.

    TLS uses this layout twice: for the extension block of a Hello (RFC 8446 section 4.2) and for the
    KeyShareEntry vector inside a key_share extension (section 4.2.8). */
module Tlvs {
  import opened Bytes
  import opened Filter

  datatype Tlv = Tlv(tag: u16, value: vec16)

  function PrintTlv(t: Tlv): bytes {
    B2(t.tag) + B2(|t.value|) + t.value
  }

  function PrintTlvs(ts: seq<Tlv>): bytes {
    if ts == [] then [] else PrintTlv(ts[0]) + PrintTlvs(ts[1..])
  }

  /** The list whose printed form is `s`, if there is one. */
  function ParseTlvs(s: bytes): Result<seq<Tlv>> {
    if s == [] then Ok([])
    else if |s| < 4 || 4 + U16(s, 2) > |s| then Err(ValueError)
    else
      var n := U16(s, 2);
      var rest :- ParseTlvs(s[4 + n..]);
      Ok([Tlv(U16(s, 0), s[4..4 + n])] + rest)
  }

  /** The read that opens every cursor loop: tag and length at `c`, and the value if it ends by `end`. */
  function NextTlv(d: bytes, c: nat, end: nat): Result<Tlv>
    requires end <= |d|
  {
    var tag :- ReadU16(d, c);
    var length :- ReadU16(d, c + 2);
    if c + 4 + length > end then Err(ValueError) else Ok(Tlv(tag, d[c + 4..c + 4 + length]))
  }

  /** A cursor loop over `d[c..end]` takes the printed list apart from the front. */
  lemma ParseAt(d: bytes, c: nat, end: nat)
    requires c < end <= |d|
    ensures var t := NextTlv(d, c, end);
            && (t.Err? ==> t == Err(ValueError) && ParseTlvs(d[c..end]) == Err(ValueError))
            && (t.Ok? ==>
                  && c + 4 + |t.value.value| <= end
                  && ParseTlvs(d[c..end]) == Prepend([t.value], ParseTlvs(d[c + 4 + |t.value.value|..end])))
  {
    hide ParseTlvs;
    var s := d[c..end];
    ParseStep(s);
    if c + 4 <= end && c + 4 + U16(d, c + 2) <= end {
      var n := U16(d, c + 2);
      assert U16(s, 2) == n && U16(s, 0) == U16(d, c);
      SliceOfSlice(d, c, end, 4, 4 + n);
      SliceOfSlice(d, c, end, 4 + n, |s|);
      assert s[4 + n..] == s[4 + n..|s|];
    } else if c + 4 <= end {
      assert U16(s, 2) == U16(d, c + 2);
    }
  }

  lemma ParseStep(s: bytes)
    requires s != []
    ensures ParseTlvs(s) == if |s| < 4 || 4 + U16(s, 2) > |s| then Err(ValueError)
                            else Prepend([Tlv(U16(s, 0), s[4..4 + U16(s, 2)])], ParseTlvs(s[4 + U16(s, 2)..]))
  {
  }

  /** The bytes a loop steps over are the printed form of what it read. */
  lemma PrintAt(d: bytes, c: nat, end: nat)
    requires end <= |d| && NextTlv(d, c, end).Ok?
    ensures var t := NextTlv(d, c, end).value;
            c + 4 + |t.value| <= end && PrintTlv(t) == d[c..c + 4 + |t.value|]
  {
    var n := U16(d, c + 2);
    B2OfU16(d, c);
    B2OfU16(d, c + 2);
    assert d[c..c + 4 + n] == d[c..c + 2] + d[c + 2..c + 4] + d[c + 4..c + 4 + n];
  }

  lemma ParseEnd(d: bytes, end: nat, done: seq<Tlv>)
    requires end <= |d|
    ensures Prepend(done, ParseTlvs(d[end..end])) == Ok(done)
  {
    assert d[end..end] == [];
    assert done + [] == done;
  }

  function Prepend<T>(done: seq<T>, rest: Result<seq<T>>): Result<seq<T>> {
    var r :- rest;
    Ok(done + r)
  }

  lemma PrependNothing<T>(rest: Result<seq<T>>)
    ensures Prepend([], rest) == rest
  {
    if rest.Ok? {
      assert [] + rest.value == rest.value;
    }
  }

  lemma PrependTwice<T>(a: seq<T>, b: seq<T>, rest: Result<seq<T>>)
    ensures Prepend(a, Prepend(b, rest)) == Prepend(a + b, rest)
  {
    if rest.Ok? {
      assert a + (b + rest.value) == (a + b) + rest.value;
    }
  }

  /** Printing and parsing are inverse to each other, in both directions. */
  lemma {:induction false} ParsePrint(ts: seq<Tlv>)
    ensures ParseTlvs(PrintTlvs(ts)) == Ok(ts)
  {
    if ts != [] {
      var t, s := ts[0], PrintTlvs(ts);
      assert U16(s, 0) == t.tag && U16(s, 2) == |t.value|;
      assert s[4..4 + |t.value|] == t.value;
      assert s[4 + |t.value|..] == PrintTlvs(ts[1..]);
      ParsePrint(ts[1..]);
      assert [t] + ts[1..] == ts;
    }
  }

  lemma PrintNothing()
    ensures PrintTlvs([]) == []
  {
  }

  lemma PrintFirst(ts: seq<Tlv>)
    requires ts != []
    ensures PrintTlvs(ts) == PrintTlv(ts[0]) + PrintTlvs(ts[1..])
    ensures |PrintTlv(ts[0])| == 4 + |ts[0].value|
  {
  }

  lemma PrintCons(t: Tlv, ts: seq<Tlv>)
    ensures PrintTlvs([t] + ts) == PrintTlv(t) + PrintTlvs(ts)
  {
    assert ([t] + ts)[1..] == ts;
  }

  lemma {:induction false} PrintParse(s: bytes)
    ensures ParseTlvs(s).Ok? ==> PrintTlvs(ParseTlvs(s).value) == s
    ensures ParseTlvs(s).Err? ==> ParseTlvs(s) == Err(ValueError)
  {
    hide PrintTlvs, PrintTlv, B2;
    PrintNothing();
    if s != [] && |s| >= 4 && 4 + U16(s, 2) <= |s| {
      var n := U16(s, 2);
      var t, rest := Tlv(U16(s, 0), s[4..4 + n]), s[4 + n..];
      PrintParse(rest);
      if ParseTlvs(rest).Ok? {
        PrintCons(t, ParseTlvs(rest).value);
        PrintAt(s, 0, |s|);
        assert s[0..4 + n] + rest == s;
      }
    }
  }

  lemma {:induction false} PrintConcat(a: seq<Tlv>, b: seq<Tlv>)
    ensures PrintTlvs(a + b) == PrintTlvs(a) + PrintTlvs(b)
  {
    if a == [] {
      assert a + b == b;
    } else {
      assert (a + b)[1..] == a[1..] + b;
      PrintConcat(a[1..], b);
    }
  }

  lemma PrintSnoc(ts: seq<Tlv>, t: Tlv)
    ensures PrintTlvs(ts + [t]) == PrintTlvs(ts) + PrintTlv(t)
  {
    PrintConcat(ts, [t]);
    assert PrintTlvs([t]) == PrintTlv(t) + [];
  }

  function Tagged(g: int): Tlv -> bool {
    (t: Tlv) => t.tag == g
  }

  /** The entries whose tag is not `g`, in order. */
  function WithoutTag(ts: seq<Tlv>, g: int): seq<Tlv> {
    Drop(ts, Tagged(g))
  }

  predicate HasTag(ts: seq<Tlv>, g: int) {
    Any(ts, Tagged(g))
  }

  function Tags(ts: seq<Tlv>): seq<u16> {
    seq(|ts|, i requires 0 <= i < |ts| => ts[i].tag)
  }

  /** The bytes that entries tagged `g` occupy. */
  function TaggedSize(ts: seq<Tlv>, g: int): nat {
    if ts == [] then 0
    else (if ts[0].tag == g then 4 + |ts[0].value| else 0) + TaggedSize(ts[1..], g)
  }

  lemma {:induction false} WithoutTagSize(ts: seq<Tlv>, g: int)
    ensures |PrintTlvs(ts)| == |PrintTlvs(WithoutTag(ts, g))| + TaggedSize(ts, g)
    ensures HasTag(ts, g) <==> WithoutTag(ts, g) != ts
    ensures HasTag(ts, g) <==> TaggedSize(ts, g) > 0
  {
    hide PrintTlvs, PrintTlv, WithoutTag, HasTag;
    WithoutTagNothing(g);
    if ts == [] {
      PrintNothing();
    } else {
      var t, rest := ts[0], ts[1..];
      assert ts == [t] + rest;
      WithoutTagSize(rest, g);
      WithoutTagCons(t, rest, g);
      WithoutTagAbsent(ts, g);
      PrintFirst(ts);
      PrintCons(t, WithoutTag(rest, g));
      assert [] + WithoutTag(rest, g) == WithoutTag(rest, g);
    }
  }

  lemma WithoutTagAbsent(ts: seq<Tlv>, g: int)
    ensures HasTag(ts, g) <==> WithoutTag(ts, g) != ts
  {
    DropSize(ts, Tagged(g));
  }

  lemma WithoutTagNothing(g: int)
    ensures WithoutTag([], g) == [] && !HasTag([], g)
  {
    DropNothing(Tagged(g));
  }

  lemma WithoutTagCons(t: Tlv, ts: seq<Tlv>, g: int)
    ensures WithoutTag([t] + ts, g) == (if t.tag == g then [] else [t]) + WithoutTag(ts, g)
    ensures HasTag([t] + ts, g) <==> t.tag == g || HasTag(ts, g)
  {
    DropCons(t, ts, Tagged(g));
  }

  lemma WithoutTagConcat(a: seq<Tlv>, b: seq<Tlv>, g: int)
    ensures WithoutTag(a + b, g) == WithoutTag(a, g) + WithoutTag(b, g)
    ensures HasTag(a + b, g) <==> HasTag(a, g) || HasTag(b, g)
  {
    DropConcat(a, b, Tagged(g));
  }

  lemma WithoutTagCommutes(ts: seq<Tlv>, g: int, h: int)
    ensures WithoutTag(WithoutTag(ts, g), h) == WithoutTag(WithoutTag(ts, h), g)
    ensures HasTag(WithoutTag(ts, g), h) <==> g != h && HasTag(ts, h)
  {
    DropCommutes(ts, Tagged(g), Tagged(h));
    DropAny(ts, Tagged(g), Tagged(h));
  }

  lemma WithoutTagSnoc(ts: seq<Tlv>, t: Tlv, g: int)
    ensures PrintTlvs(WithoutTag(ts + [t], g))
            == PrintTlvs(WithoutTag(ts, g)) + (if t.tag == g then [] else PrintTlv(t))
    ensures HasTag(ts + [t], g) <==> HasTag(ts, g) || t.tag == g
  {
    hide WithoutTag, HasTag, PrintTlvs, PrintTlv;
    WithoutTagConcat(ts, [t], g);
    WithoutTagNothing(g);
    WithoutTagCons(t, [], g);
    assert [t] + [] == [t];
    if t.tag == g {
      assert WithoutTag(ts + [t], g) == WithoutTag(ts, g);
    } else {
      PrintSnoc(WithoutTag(ts, g), t);
    }
  }
}

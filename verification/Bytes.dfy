/** Octet strings, big-endian integers and the exceptions Python can raise while handling them.

    A read that can be out of range on some input is a function into `Result`.  An index, a slice or a
    fixed-width encoding written directly is one that is in range on every input: it has a precondition,
    and meeting it at each use is the proof that no `IndexError` or `OverflowError` is raised there. */
module Bytes {

  type byte = b: int | 0 <= b < 0x100
  type bytes = seq<byte>
  type u16 = n: int | 0 <= n < 0x1_0000

  /** Octet strings that a two-byte length can describe. */
  type vec16 = s: bytes | |s| < 0x1_0000

  datatype Option<+T> = None | Some(value: T)

  datatype Error = ValueError | IndexError | KeyError | FileNotFoundError

  datatype Result<+T> = Ok(value: T) | Err(error: Error) {
    predicate IsFailure() {
      Err?
    }

    function PropagateFailure<U>(): Result<U>
      requires Err?
    {
      Err(error)
    }

    function Extract(): T
      requires Ok?
    {
      value
    }
  }

  /** The big-endian number in bytes `o` and `o + 1`. */
  function U16(d: bytes, o: nat): (n: nat)
    requires o + 2 <= |d|
    ensures n < 0x1_0000
  {
    (d[o] as int) * 0x100 + d[o + 1]
  }

  function U24(d: bytes, o: nat): nat
    requires o + 3 <= |d|
  {
    (d[o] as int) * 0x1_0000 + (d[o + 1] as int) * 0x100 + d[o + 2]
  }

  function U32(d: bytes, o: nat): nat
    requires o + 4 <= |d|
  {
    U16(d, o) * 0x1_0000 + U16(d, o + 2)
  }

  /** Big-endian encodings of two, three and four bytes. */
  function B2(n: u16): (s: bytes)
    ensures |s| == 2 && U16(s, 0) == n
  {
    [n / 0x100, n % 0x100]
  }

  function B3(n: nat): (s: bytes)
    requires n < 0x100_0000
    ensures |s| == 3 && U24(s, 0) == n
  {
    [n / 0x1_0000, n / 0x100 % 0x100, n % 0x100]
  }

  function B4(n: nat): (s: bytes)
    requires n < 0x1_0000_0000
    ensures |s| == 4 && U32(s, 0) == n
  {
    B2(n / 0x1_0000) + B2(n % 0x1_0000)
  }

  /** `_read_u16`: a slice that is too short is refused rather than read short. */
  function ReadU16(d: bytes, o: nat): Result<nat> {
    if o + 2 > |d| then Err(ValueError) else Ok(U16(d, o))
  }

  lemma SliceOfSlice(d: bytes, lo: nat, hi: nat, a: nat, b: nat)
    requires lo <= hi <= |d| && a <= b <= hi - lo
    ensures d[lo..hi][a..b] == d[lo + a..lo + b]
  {
    var s, t := d[lo..hi][a..b], d[lo + a..lo + b];
    assert |s| == |t|;
    assert forall i :: 0 <= i < |s| ==> s[i] == d[lo + a + i] == t[i];
  }

  lemma Cut5(d: bytes, a: nat, b: nat, c: nat, e: nat)
    requires a <= b <= c <= e <= |d|
    ensures d == d[..a] + d[a..b] + d[b..c] + d[c..e] + d[e..]
  {
  }

  /** A two-byte field re-encodes to the bytes it was read from. */
  lemma B2OfU16(d: bytes, o: nat)
    requires o + 2 <= |d|
    ensures B2(U16(d, o)) == d[o..o + 2]
  {
  }

  lemma B3OfU24(d: bytes, o: nat)
    requires o + 3 <= |d|
    ensures B3(U24(d, o)) == d[o..o + 3]
  {
  }

  lemma B4OfU32(d: bytes, o: nat)
    requires o + 4 <= |d|
    ensures U32(d, o) < 0x1_0000_0000 && B4(U32(d, o)) == d[o..o + 4]
  {
    hide B2;
    var high, low := U16(d, o), U16(d, o + 2);
    assert (high * 0x1_0000 + low) / 0x1_0000 == high && (high * 0x1_0000 + low) % 0x1_0000 == low;
    B2OfU16(d, o);
    B2OfU16(d, o + 2);
  }

  /** All eight bits inverted. */
  function Complement(b: byte): byte {
    0xFF - b
  }

  lemma ComplementIsXor(b: bv8)
    ensures Complement(b as int) == (b ^ 0xFF) as int
  {
    assert b ^ 0xFF == 0xFF - b;
  }

  /** Bytes `start .. start + count` complemented, everything else as it was. */
  function Flip(s: bytes, start: nat, count: nat): (r: bytes)
    requires start + count <= |s|
    ensures |r| == |s|
  {
    seq(|s|, i requires 0 <= i < |s| => if start <= i < start + count then Complement(s[i]) else s[i])
  }

  lemma FlipTwice(s: bytes, start: nat, count: nat)
    requires start + count <= |s|
    ensures Flip(Flip(s, start, count), start, count) == s
  {
    var t := Flip(s, start, count);
    assert forall i :: 0 <= i < |s| ==> Flip(t, start, count)[i] == s[i];
  }

  /** Flipping inside the middle part of a string is flipping that part. */
  lemma FlipInside(a: bytes, b: bytes, c: bytes, o: nat, count: nat)
    requires o + count <= |b|
    ensures Flip(a + b + c, |a| + o, count) == a + Flip(b, o, count) + c
  {
  }

  lemma FlipSlice(s: bytes, start: nat, count: nat, lo: nat, hi: nat)
    requires lo <= start && start + count <= hi <= |s|
    ensures Flip(s, start, count)[lo..hi] == Flip(s[lo..hi], start - lo, count)
  {
  }

  lemma FlipParts(s: bytes, o: nat, n: nat)
    requires o + n <= |s|
    ensures Flip(s, o, n) == s[..o] + Flip(s[o..o + n], 0, n) + s[o + n..]
  {
  }

  /** The XOR loop both forgers run over a `bytearray`. */
  method FlipInPlace(a: array<byte>, start: nat, count: nat)
    requires start + count <= a.Length
    modifies a
    ensures a[..] == Flip(old(a[..]), start, count)
  {
    var index := start;
    while index < start + count
      invariant start <= index <= start + count
      invariant forall i :: start <= i < index ==> a[i] == Complement(old(a[i]))
      invariant forall i :: 0 <= i < a.Length && !(start <= i < index) ==> a[i] == old(a[i])
    {
      a[index] := Complement(a[index]);
      index := index + 1;
    }
  }

  /** The XOR loop on a mutable copy, and the copy as an immutable string. */
  method FlipCopy(s: bytes, start: nat, count: nat) returns (r: bytes)
    requires start + count <= |s|
    ensures r == Flip(s, start, count)
  {
    var forged := new byte[|s|](i requires 0 <= i < |s| => s[i]);
    assert forged[..] == s;
    FlipInPlace(forged, start, count);
    r := forged[..];
  }
}

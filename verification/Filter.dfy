/** Dropping elements from a sequence: the one operation behind every rewrite of a list. */
module Filter {

  /** The elements that do not satisfy `p`, in order. */
  function Drop<T>(s: seq<T>, p: T -> bool): seq<T> {
    if s == [] then [] else (if p(s[0]) then [] else [s[0]]) + Drop(s[1..], p)
  }

  predicate Any<T>(s: seq<T>, p: T -> bool) {
    exists i :: 0 <= i < |s| && p(s[i])
  }

  lemma DropNothing<T>(p: T -> bool)
    ensures Drop([], p) == [] && !Any([], p)
  {
  }

  lemma DropCons<T>(x: T, s: seq<T>, p: T -> bool)
    ensures Drop([x] + s, p) == (if p(x) then [] else [x]) + Drop(s, p)
    ensures Any([x] + s, p) <==> p(x) || Any(s, p)
  {
    var whole := [x] + s;
    assert whole[0] == x && whole[1..] == s;
    if Any(s, p) {
      var i :| 0 <= i < |s| && p(s[i]);
      assert p(whole[i + 1]);
    }
    if Any(whole, p) {
      var i :| 0 <= i < |whole| && p(whole[i]);
      assert i == 0 || p(s[i - 1]);
    }
  }

  lemma {:induction false} DropConcat<T>(a: seq<T>, b: seq<T>, p: T -> bool)
    ensures Drop(a + b, p) == Drop(a, p) + Drop(b, p)
    ensures Any(a + b, p) <==> Any(a, p) || Any(b, p)
  {
    hide Drop, Any;
    DropNothing(p);
    if a == [] {
      assert a + b == b && [] + Drop(b, p) == Drop(b, p);
    } else {
      assert a + b == [a[0]] + (a[1..] + b) && a == [a[0]] + a[1..];
      DropConcat(a[1..], b, p);
      DropCons(a[0], a[1..] + b, p);
      DropCons(a[0], a[1..], p);
    }
  }

  lemma {:induction false} DropCommutes<T>(s: seq<T>, p: T -> bool, q: T -> bool)
    ensures Drop(Drop(s, p), q) == Drop(Drop(s, q), p)
  {
    hide Drop, Any;
    DropNothing(p);
    DropNothing(q);
    if s != [] {
      var x, rest := s[0], s[1..];
      assert s == [x] + rest;
      DropCommutes(rest, p, q);
      DropCons(x, rest, p);
      DropCons(x, rest, q);
      DropCons(x, Drop(rest, p), q);
      DropCons(x, Drop(rest, q), p);
      assert [] + Drop(rest, p) == Drop(rest, p) && [] + Drop(rest, q) == Drop(rest, q);
    }
  }

  /** What is dropped is gone, and what is not dropped is still there. */
  lemma {:induction false} DropAny<T(!new)>(s: seq<T>, p: T -> bool, q: T -> bool)
    ensures !Any(Drop(s, p), p)
    ensures (forall x :: q(x) ==> !p(x)) ==> (Any(Drop(s, p), q) <==> Any(s, q))
  {
    hide Drop, Any;
    DropNothing(p);
    DropNothing(q);
    if s != [] {
      var x, rest := s[0], s[1..];
      assert s == [x] + rest;
      DropAny(rest, p, q);
      DropCons(x, rest, p);
      DropCons(x, rest, q);
      DropCons(x, Drop(rest, p), p);
      DropCons(x, Drop(rest, p), q);
      assert [] + Drop(rest, p) == Drop(rest, p);
    }
  }

  /** Dropping shortens a sequence exactly when there is something to drop. */
  lemma {:induction false} DropSize<T>(s: seq<T>, p: T -> bool)
    ensures |Drop(s, p)| <= |s|
    ensures |Drop(s, p)| == |s| <==> !Any(s, p)
    ensures !Any(s, p) <==> Drop(s, p) == s
  {
    hide Drop, Any;
    DropNothing(p);
    if s != [] {
      var x, rest := s[0], s[1..];
      assert s == [x] + rest;
      DropSize(rest, p);
      DropCons(x, rest, p);
    }
  }

  /** Nothing but elements of the sequence is kept. */
  lemma {:induction false} DropIsSubset<T>(s: seq<T>, p: T -> bool)
    ensures forall x :: x in Drop(s, p) ==> x in s && !p(x)
  {
    if s != [] {
      DropIsSubset(s[1..], p);
    }
  }
}

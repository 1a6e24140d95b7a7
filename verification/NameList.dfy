/** Comma-separated name-lists (RFC 4251 section 5), as Python's `split` and `join` treat them. */
module NameList {
  import opened Filter

  /** The text cut at every comma: always at least one name. */
  function Split(text: string): (names: seq<string>)
    ensures names != []
  {
    if text == "" then [""]
    else
      var rest := Split(text[1..]);
      if text[0] == ',' then [""] + rest else [[text[0]] + rest[0]] + rest[1..]
  }

  /** The names with a comma between each two. */
  function Join(names: seq<string>): string {
    if names == [] then ""
    else if |names| == 1 then names[0]
    else names[0] + "," + Join(names[1..])
  }

  /** How the source reads a name-list: empty text is no name, not one empty name. */
  function Names(text: string): seq<string> {
    if text == "" then [] else Split(text)
  }

  predicate NoCommas(names: seq<string>) {
    forall i :: 0 <= i < |names| ==> ',' !in names[i]
  }

  function Is(name: string): string -> bool {
    (other: string) => other == name
  }

  /** The names other than `name`, in order. */
  function Without(names: seq<string>, name: string): seq<string> {
    Drop(names, Is(name))
  }

  lemma WithoutCons(first: string, rest: seq<string>, name: string)
    ensures Without([first] + rest, name) == (if first == name then [] else [first]) + Without(rest, name)
    ensures Without([], name) == []
  {
    DropCons(first, rest, Is(name));
  }

  lemma WithoutAbsent(names: seq<string>, name: string)
    ensures name !in names <==> Without(names, name) == names
  {
    DropSize(names, Is(name));
    assert Any(names, Is(name)) <==> name in names;
  }

  lemma {:induction false} JoinSplit(text: string)
    ensures Join(Split(text)) == text && NoCommas(Split(text))
  {
    if text != "" {
      var rest := Split(text[1..]);
      JoinSplit(text[1..]);
      assert text == [text[0]] + text[1..];
      if text[0] == ',' {
        assert ([""] + rest)[1..] == rest;
      } else {
        JoinHead([text[0]], rest);
      }
    }
  }

  lemma JoinHead(c: string, names: seq<string>)
    requires names != []
    ensures Join([c + names[0]] + names[1..]) == c + Join(names)
  {
    var longer := [c + names[0]] + names[1..];
    assert longer[1..] == names[1..];
    if |names| > 1 {
      assert (c + names[0]) + "," + Join(names[1..]) == c + (names[0] + "," + Join(names[1..]));
    }
  }

  lemma {:induction false} SplitWord(word: string)
    requires ',' !in word
    ensures Split(word) == [word]
  {
    if word != "" {
      SplitWord(word[1..]);
      assert word == [word[0]] + word[1..];
    }
  }

  lemma {:induction false} SplitCons(word: string, text: string)
    requires ',' !in word
    ensures Split(word + "," + text) == [word] + Split(text)
  {
    var whole := word + "," + text;
    if word == "" {
      assert whole == "," + text && whole[1..] == text;
    } else {
      SplitCons(word[1..], text);
      assert whole[1..] == word[1..] + "," + text;
      assert word == [word[0]] + word[1..];
      assert ([word[1..]] + Split(text))[1..] == Split(text);
    }
  }

  lemma {:induction false} SplitJoin(names: seq<string>)
    requires names != [] && NoCommas(names)
    ensures Split(Join(names)) == names
  {
    if |names| == 1 {
      SplitWord(names[0]);
    } else {
      SplitJoin(names[1..]);
      SplitCons(names[0], Join(names[1..]));
    }
  }

  /** A joined list reads back as itself, with one exception: the list of one empty name reads back empty. */
  lemma NamesOfJoin(names: seq<string>)
    requires NoCommas(names)
    ensures Names(Join(names)) == if names == [""] then [] else names
  {
    if names != [] {
      SplitJoin(names);
      assert Join(names) == "" ==> names == [""] by {
        if Join(names) == "" {
          assert Split("") == [""];
        }
      }
    }
  }

  lemma JoinNames(text: string)
    ensures Join(Names(text)) == text && NoCommas(Names(text)) && Names(text) != [""]
  {
    JoinSplit(text);
  }

  lemma WithoutNoCommas(names: seq<string>, name: string)
    requires NoCommas(names)
    ensures NoCommas(Without(names, name))
  {
    DropIsSubset(names, Is(name));
    var kept := Without(names, name);
    assert forall i :: 0 <= i < |kept| ==> kept[i] in names;
  }

  lemma WithoutConcat(a: seq<string>, b: seq<string>, name: string)
    ensures Without(a + b, name) == Without(a, name) + Without(b, name)
  {
    DropConcat(a, b, Is(name));
  }

  lemma WithoutCommutes(names: seq<string>, a: string, b: string)
    ensures Without(Without(names, a), b) == Without(Without(names, b), a)
    ensures b in Without(names, a) <==> a != b && b in names
  {
    DropCommutes(names, Is(a), Is(b));
    DropAny(names, Is(a), Is(b));
    assert Any(names, Is(b)) <==> b in names;
    assert Any(Without(names, a), Is(b)) <==> b in Without(names, a);
  }

  /** The bytes a removal saves are the removed names and one comma each, down to the last name. */
  function Removed(names: seq<string>, name: string): nat {
    if names == [] then 0 else (if names[0] == name then |name| + 1 else 0) + Removed(names[1..], name)
  }

  function Weight(names: seq<string>): nat {
    if names == [] then 0 else |names[0]| + 1 + Weight(names[1..])
  }

  lemma {:induction false} JoinWeight(names: seq<string>)
    ensures |Join(names)| == if names == [] then 0 else Weight(names) - 1
  {
    if |names| > 1 {
      JoinWeight(names[1..]);
    }
  }

  lemma {:induction false} WithoutWeight(names: seq<string>, name: string)
    ensures Weight(names) == Weight(Without(names, name)) + Removed(names, name)
    ensures name in names ==> Removed(names, name) > 0
  {
    if names != [] {
      WithoutWeight(names[1..], name);
      if names[0] != name {
        assert Without(names, name)[1..] == Without(names[1..], name);
      } else {
        assert Without(names, name) == Without(names[1..], name);
      }
    }
  }

  /** Removing a name that occurs shortens the joined text, unless all there was is one empty name. */
  lemma JoinShrinks(names: seq<string>, name: string)
    requires names != [""]
    ensures |Join(Without(names, name))| <= |Join(names)|
    ensures name in names <==> |Join(Without(names, name))| < |Join(names)|
    ensures name in names <==> Join(Without(names, name)) != Join(names)
  {
    if name !in names {
      WithoutAbsent(names, name);
    }
    JoinWeight(names);
    JoinWeight(Without(names, name));
    WithoutWeight(names, name);
    if name in names && Without(names, name) == [] {
      assert |names| >= 1;
      if |names| == 1 {
        assert names[0] != "";
      } else {
        assert Weight(names) >= 1 + Weight(names[1..]) && Weight(names[1..]) >= 1;
      }
    }
  }

  /** All that `name` leaves of the list is one empty name. */
  predicate LeavesOneEmpty(names: seq<string>, name: string) {
    name != "" && exists i :: 0 <= i < |names| && names[i] == "" && OthersAre(names, i, name)
  }

  predicate OthersAre(names: seq<string>, i: nat, name: string) {
    forall j :: 0 <= j < |names| && j != i ==> names[j] == name
  }

  lemma {:induction false} AllRemoved(names: seq<string>, name: string)
    ensures Without(names, name) == [] <==> forall j :: 0 <= j < |names| ==> names[j] == name
  {
    if names != [] {
      AllRemoved(names[1..], name);
      if Without(names, name) == [] {
        assert forall j :: 0 <= j < |names| ==> names[j] == if j == 0 then names[0] else names[1..][j - 1];
      }
    }
  }

  lemma OneEmptyLeft(names: seq<string>, name: string, i: nat)
    requires name != "" && i < |names| && names[i] == "" && OthersAre(names, i, name)
    ensures Without(names, name) == [""]
  {
    hide Without;
    var before, after := names[..i], names[i + 1..];
    assert names == before + ([""] + after);
    AllRemoved(before, name);
    AllRemoved(after, name);
    WithoutConcat(before, [""] + after, name);
    WithoutCons("", after, name);
    assert [] + ([""] + []) == [""];
  }

  lemma {:induction false} FindOneEmpty(names: seq<string>, name: string) returns (i: nat)
    requires Without(names, name) == [""]
    ensures name != "" && i < |names| && names[i] == "" && OthersAre(names, i, name)
  {
    var rest := names[1..];
    assert forall j :: 0 < j < |names| ==> names[j] == rest[j - 1];
    if names[0] == name {
      assert Without(names, name) == Without(rest, name);
      i := FindOneEmpty(rest, name);
      i := i + 1;
    } else {
      assert Without(names, name)[0] == names[0] && Without(names, name)[1..] == Without(rest, name);
      AllRemoved(rest, name);
      i := 0;
    }
  }

  lemma LeavesOneEmptyExact(names: seq<string>, name: string)
    ensures Without(names, name) == [""] <==> LeavesOneEmpty(names, name)
  {
    hide Without;
    if Without(names, name) == [""] {
      var i := FindOneEmpty(names, name);
    }
    if LeavesOneEmpty(names, name) {
      var i :| 0 <= i < |names| && names[i] == "" && OthersAre(names, i, name);
      OneEmptyLeft(names, name, i);
    }
  }
}

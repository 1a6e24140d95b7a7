/** The proxy log: the line a mutator appends, and the readers that later decide from the log whether the
    manipulation was applied. */
module ProxyLog {
  import opened Bytes

  /** The log file: `None` while it does not exist. */
  type Log = Option<string>

  /** The line written by both mutators. */
  function LogLine(event: string, group: string, before: string, after: string): string {
    Entry(event, group, before, after) + "\n"
  }

  function Entry(event: string, group: string, before: string, after: string): string {
    "event=" + event + " " + ("group_id=" + group + " " + ("before_sha256=" + before + " " + ("after_sha256=" + after)))
  }

  /** Opening with mode "a" creates the file if need be. */
  function Append(log: Log, text: string): Log {
    Some((if log.None? then "" else log.value) + text)
  }

  // ---- reading

  /** The characters that end a line for `splitlines`. */
  predicate IsLineBreak(c: char) {
    c in {'\n', '\r', '\U{000B}', '\U{000C}', '\U{001C}', '\U{001D}', '\U{001E}', '\U{0085}', '\U{2028}', '\U{2029}'}
  }

  /** The characters that separate words for `split`. */
  predicate IsSpace(c: char) {
    || IsLineBreak(c)
    || c in {' ', '\t', '\U{001F}', '\U{00A0}', '\U{1680}', '\U{202F}', '\U{205F}', '\U{3000}'}
    || '\U{2000}' <= c <= '\U{200A}'
  }

  /** The lines of a text, with the part of the current line read so far.  A carriage return and the line feed
      after it give one more empty line here; an empty line holds no field. */
  function Lines(text: string, current: string): seq<string> {
    if text == "" then (if current == "" then [] else [current])
    else if IsLineBreak(text[0]) then [current] + Lines(text[1..], "")
    else Lines(text[1..], current + [text[0]])
  }

  /** The words of a line, with the part of the current word read so far. */
  function Words(line: string, current: string): seq<string> {
    if line == "" then (if current == "" then [] else [current])
    else if IsSpace(line[0]) then (if current == "" then [] else [current]) + Words(line[1..], "")
    else Words(line[1..], current + [line[0]])
  }

  /** The two sides of the first equals sign of a word that holds one. */
  function Field(word: string): Option<(string, string)> {
    if word == "" then None
    else if word[0] == '=' then Some(("", word[1..]))
    else match Field(word[1..])
         case None => None
         case Some((key, value)) => Some(([word[0]] + key, value))
  }

  /** The dictionary of all words that hold an equals sign: later words win. */
  function Fields(words: seq<string>): map<string, string> {
    if words == [] then map[]
    else
      var m := Fields(words[..|words| - 1]);
      match Field(words[|words| - 1])
      case None => m
      case Some((key, value)) => m[key := value]
  }

  function FieldsOf(line: string): map<string, string> {
    Fields(Words(line, ""))
  }

  /** The value under a key, if the dictionary has one. */
  function Get(fields: map<string, string>, key: string): Option<string> {
    if key in fields then Some(fields[key]) else None
  }

  predicate Truthy(value: Option<string>) {
    value.Some? && value.value != ""
  }

  /** The test `verify_binding` makes on a line. */
  predicate BindingApplied(line: string) {
    var fields := FieldsOf(line);
    && Get(fields, "event") == Some("binding_mutation")
    && Truthy(Get(fields, "before_sha256")) && Truthy(Get(fields, "after_sha256"))
    && Get(fields, "before_sha256") != Get(fields, "after_sha256")
  }

  /** The test the `onpath-strip` branch of `verify_condition` makes on a line. */
  predicate StripApplied(line: string) {
    var fields := FieldsOf(line);
    Get(fields, "event") == Some("strip_mutation") && Get(fields, "before_sha256") != Get(fields, "after_sha256")
  }

  /** `verify_binding`: reading a file that does not exist raises. */
  function VerifyBinding(log: Log): Result<bool> {
    if log.None? then Err(FileNotFoundError)
    else Ok(exists line :: line in Lines(log.value, "") && BindingApplied(line))
  }

  /** The `onpath-strip` branch of `verify_condition`. */
  function VerifyStrip(log: Log): Result<bool> {
    if log.None? then Err(FileNotFoundError) else Ok(exists line :: line in Lines(log.value, "") && StripApplied(line))
  }

  // ---- what the writer writes, the reader reads

  predicate Plain(text: string) {
    forall i :: 0 <= i < |text| ==> !IsSpace(text[i])
  }

  lemma {:induction false} WordsOfWord(word: string, current: string)
    requires Plain(word) && current + word != ""
    ensures Words(word, current) == [current + word]
  {
    if word == "" {
      assert current + word == current;
    } else {
      assert (current + [word[0]]) + word[1..] == current + word;
      WordsOfWord(word[1..], current + [word[0]]);
    }
  }

  lemma {:induction false} WordsCons(word: string, rest: string, current: string)
    requires Plain(word) && current + word != ""
    ensures Words(word + " " + rest, current) == [current + word] + Words(rest, "")
  {
    var line := word + " " + rest;
    if word == "" {
      assert line == " " + rest && line[1..] == rest && current + word == current;
    } else {
      assert line[1..] == word[1..] + " " + rest;
      assert (current + [word[0]]) + word[1..] == current + word;
      WordsCons(word[1..], rest, current + [word[0]]);
    }
  }

  lemma {:induction false} FieldParts(key: string, value: string)
    requires '=' !in key
    ensures Field(key + "=" + value) == Some((key, value))
  {
    var word := key + "=" + value;
    if key == "" {
      assert word == "=" + value && word[1..] == value;
    } else {
      assert word[1..] == key[1..] + "=" + value;
      FieldParts(key[1..], value);
      assert key == [key[0]] + key[1..];
    }
  }

  lemma WordsOfEntry(event: string, group: string, before: string, after: string)
    requires Plain(event) && Plain(group) && Plain(before) && Plain(after)
    ensures Words(Entry(event, group, before, after), "")
            == ["event=" + event, "group_id=" + group, "before_sha256=" + before, "after_sha256=" + after]
  {
    hide Words, IsSpace;
    var a, b, c, d := "event=" + event, "group_id=" + group, "before_sha256=" + before, "after_sha256=" + after;
    PlainParts();
    assert Plain(a) && Plain(b) && Plain(c) && Plain(d);
    assert "" + a == a && "" + b == b && "" + c == c && "" + d == d;
    WordsCons(a, b + " " + (c + " " + d), "");
    WordsCons(b, c + " " + d, "");
    WordsCons(c, d, "");
    WordsOfWord(d, "");
    assert [a] + ([b] + ([c] + [d])) == [a, b, c, d];
  }

  predicate IsLabel(c: char) {
    'a' <= c <= 'z' || c == '_' || c == '=' || '2' <= c <= '6'
  }

  lemma LabelsArePlain(c: char)
    requires IsLabel(c)
    ensures !IsSpace(c)
  {
  }

  lemma PlainLabel(text: string)
    requires forall i :: 0 <= i < |text| ==> IsLabel(text[i])
    ensures Plain(text)
  {
    hide IsSpace, IsLabel;
    forall i | 0 <= i < |text|
      ensures !IsSpace(text[i])
    {
      LabelsArePlain(text[i]);
    }
  }

  lemma PlainParts()
    ensures Plain("event=") && Plain("group_id=") && Plain("before_sha256=") && Plain("after_sha256=")
    ensures Plain("binding_mutation") && Plain("strip_mutation")
  {
    hide IsSpace, Plain;
    PlainLabel("event=");
    PlainLabel("group_id=");
    PlainLabel("before_sha256=");
    PlainLabel("after_sha256=");
    PlainLabel("binding_mutation");
    PlainLabel("strip_mutation");
  }

  /** The reader recovers exactly the four fields that were written. */
  lemma FieldsOfEntry(event: string, group: string, before: string, after: string)
    requires Plain(event) && Plain(group) && Plain(before) && Plain(after)
    ensures FieldsOf(Entry(event, group, before, after))
            == map["event" := event, "group_id" := group, "before_sha256" := before, "after_sha256" := after]
  {
    hide Words, Entry, Field;
    WordsOfEntry(event, group, before, after);
    var a, b, c, d := "event=" + event, "group_id=" + group, "before_sha256=" + before, "after_sha256=" + after;
    FieldParts("event", event);
    FieldParts("group_id", group);
    FieldParts("before_sha256", before);
    FieldParts("after_sha256", after);
    assert "event" + "=" == "event=" && "group_id" + "=" == "group_id=";
    assert "before_sha256" + "=" == "before_sha256=" && "after_sha256" + "=" == "after_sha256=";
    FieldsSnoc([], a);
    FieldsSnoc([a], b);
    FieldsSnoc([a, b], c);
    FieldsSnoc([a, b, c], d);
    assert [] + [a] == [a] && [a] + [b] == [a, b] && [a, b] + [c] == [a, b, c] && [a, b, c] + [d] == [a, b, c, d];
  }

  lemma FieldsSnoc(words: seq<string>, word: string)
    ensures Fields([]) == map[]
    ensures Fields(words + [word]) == match Field(word)
                                      case None => Fields(words)
                                      case Some((key, value)) => Fields(words)[key := value]
  {
    assert (words + [word])[..|words|] == words;
  }

  // ---- appending to a log

  /** Every line of the log is complete, as it is for a log that only mutators have written. */
  predicate Terminated(log: Log) {
    log.None? || log.value == "" || log.value[|log.value| - 1] == '\n'
  }

  lemma LinesFirst(text: string, current: string)
    requires text != ""
    ensures Lines(text, current)
            == if IsLineBreak(text[0]) then [current] + Lines(text[1..], "") else Lines(text[1..], current + [text[0]])
  {
  }

  lemma NewlineBreaks()
    ensures IsLineBreak('\n')
  {
  }

  lemma {:induction false} LinesConcat(a: string, b: string, current: string)
    requires a != "" ==> a[|a| - 1] == '\n'
    requires a == "" ==> current == ""
    ensures Lines(a + b, current) == Lines(a, current) + Lines(b, "")
  {
    hide IsLineBreak, Lines;
    NewlineBreaks();
    LinesOfNothing();
    if a == "" {
      assert a + b == b;
    } else {
      assert (a + b)[1..] == a[1..] + b && (a + b)[0] == a[0];
      LinesFirst(a, current);
      LinesFirst(a + b, current);
      var rest := a[1..];
      assert rest != "" ==> rest[|rest| - 1] == a[|a| - 1];
      if IsLineBreak(a[0]) {
        LinesConcat(rest, b, "");
        assert [current] + (Lines(rest, "") + Lines(b, "")) == ([current] + Lines(rest, "")) + Lines(b, "");
      } else {
        assert rest != "";
        LinesConcat(rest, b, current + [a[0]]);
      }
    }
  }

  lemma {:induction false} LineOfText(text: string, current: string)
    requires forall i :: 0 <= i < |text| ==> !IsLineBreak(text[i])
    ensures Lines(text + "\n", current) == [current + text]
  {
    var line := text + "\n";
    if text == "" {
      assert line == "\n" && line[1..] == "" && current + text == current;
    } else {
      assert line[1..] == text[1..] + "\n";
      assert (current + [text[0]]) + text[1..] == current + text;
      LineOfText(text[1..], current + [text[0]]);
    }
  }

  /** A last line that is not terminated is read like any other. */
  lemma {:induction false} UnterminatedLine(text: string, current: string)
    requires current + text != "" && forall i :: 0 <= i < |text| ==> !IsLineBreak(text[i])
    ensures Lines(text, current) == [current + text]
  {
    if text == "" {
      assert current + text == current;
    } else {
      assert (current + [text[0]]) + text[1..] == current + text;
      UnterminatedLine(text[1..], current + [text[0]]);
    }
  }

  /** Appending an entry to a complete log adds one line to what a reader sees. */
  lemma LinesOfAppended(log: Log, event: string, group: string, before: string, after: string)
    requires Terminated(log) && Plain(event) && Plain(group) && Plain(before) && Plain(after)
    ensures var grown := Append(log, LogLine(event, group, before, after));
            && Terminated(grown)
            && Lines(grown.value, "")
               == (if log.None? then [] else Lines(log.value, "")) + [Entry(event, group, before, after)]
  {
    hide Lines, Entry;
    var prior, entry := if log.None? then "" else log.value, Entry(event, group, before, after);
    EntryHasNoBreak(event, group, before, after);
    LinesConcat(prior, entry + "\n", "");
    LineOfText(entry, "");
    assert "" + entry == entry;
    LinesOfNothing();
  }

  lemma LinesOfNothing()
    ensures Lines("", "") == []
  {
  }

  lemma EntryHasNoBreak(event: string, group: string, before: string, after: string)
    requires Plain(event) && Plain(group) && Plain(before) && Plain(after)
    ensures var entry := Entry(event, group, before, after);
            forall i :: 0 <= i < |entry| ==> !IsLineBreak(entry[i])
  {
    PlainParts();
    var a, b, c, d := "event=" + event, "group_id=" + group, "before_sha256=" + before, "after_sha256=" + after;
    assert Plain(a) && Plain(b) && Plain(c) && Plain(d);
    assert Entry(event, group, before, after) == a + " " + (b + " " + (c + " " + d));
    assert !IsLineBreak(' ');
  }

  /** After one mutation the binding verifier says yes if it already did or if the two digests differ. */
  lemma BindingVerified(log: Log, group: string, before: string, after: string)
    requires Terminated(log) && Plain(group) && Plain(before) && Plain(after) && before != "" && after != ""
    ensures VerifyBinding(Append(log, LogLine("binding_mutation", group, before, after)))
            == Ok(VerifyBinding(log) == Ok(true) || before != after)
  {
    hide Lines, Entry, BindingApplied, LogLine, Plain;
    var grown := Append(log, LogLine("binding_mutation", group, before, after));
    var entry := Entry("binding_mutation", group, before, after);
    PlainParts();
    LinesOfAppended(log, "binding_mutation", group, before, after);
    BindingEntry("binding_mutation", group, before, after);
    var prior := if log.None? then [] else Lines(log.value, "");
    assert entry in prior + [entry];
    assert forall line :: line in prior + [entry] <==> line in prior || line == entry;
  }

  /** Of the lines a writer may write, the binding verifier counts those of a binding mutation with two different and
      present digests. */
  lemma BindingEntry(event: string, group: string, before: string, after: string)
    requires Plain(event) && Plain(group) && Plain(before) && Plain(after)
    ensures BindingApplied(Entry(event, group, before, after)) <==>
              event == "binding_mutation" && before != "" && after != "" && before != after
  {
    hide FieldsOf, Entry, Plain;
    FieldsOfEntry(event, group, before, after);
  }

  /** After one mutation the strip verifier says yes if it already did or if the two digests differ. */
  lemma StripVerified(log: Log, group: string, before: string, after: string)
    requires Terminated(log) && Plain(group) && Plain(before) && Plain(after)
    ensures VerifyStrip(Append(log, LogLine("strip_mutation", group, before, after)))
            == Ok(VerifyStrip(log) == Ok(true) || before != after)
  {
    hide Lines, Entry, StripApplied, LogLine, Plain;
    var entry := Entry("strip_mutation", group, before, after);
    PlainParts();
    LinesOfAppended(log, "strip_mutation", group, before, after);
    StripEntry("strip_mutation", group, before, after);
    var prior := if log.None? then [] else Lines(log.value, "");
    assert entry in prior + [entry];
    assert forall line :: line in prior + [entry] <==> line in prior || line == entry;
  }

  /** The strip verifier counts those of a strip mutation with two different digests, of which one may be empty. */
  lemma StripEntry(event: string, group: string, before: string, after: string)
    requires Plain(event) && Plain(group) && Plain(before) && Plain(after)
    ensures StripApplied(Entry(event, group, before, after)) <==> event == "strip_mutation" && before != after
  {
    hide FieldsOf, Entry, Plain;
    FieldsOfEntry(event, group, before, after);
  }

  /** The verifiers take the characters that Python takes for white space and for line breaks. */
  lemma SpaceCodes(c: char)
    ensures IsLineBreak(c) <==> c as int in {10, 11, 12, 13, 28, 29, 30, 0x85, 0x2028, 0x2029}
    ensures IsSpace(c) <==>
              || c as int in {9, 10, 11, 12, 13, 28, 29, 30, 31, 32, 0x85, 0xA0, 0x1680, 0x2028, 0x2029, 0x202F, 0x205F}
              || c as int == 0x3000 || 0x2000 <= c as int <= 0x200A
  {
    assert ' ' as int == 32 && '\t' as int == 9 && '\n' as int == 10 && '\r' as int == 13;
  }
}

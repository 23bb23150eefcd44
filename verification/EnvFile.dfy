/**
 * The env-file parser and the rewriter that must agree with it (scripts/setup-stripe-billing.ts:220-280).
 */
module EnvFile {
  import opened Wrappers
  import opened Strings

  // ---------------------------------------------------------------- lines

  /** The characters `.` does not match in a pattern. */
  predicate LineEnd(c: char) {
    c == '\n' || c == '\r' || c == '\U{2028}' || c == '\U{2029}'
  }

  /** The position of the first `c`, or the length. */
  function Find(s: string, c: char): (i: nat)
    ensures i <= |s|
  {
    if |s| == 0 || s[0] == c then 0 else 1 + Find(s[1..], c)
  }

  lemma {:induction false} FindIs(s: string, c: char)
    ensures var i := Find(s, c); (i < |s| ==> s[i] == c) && forall k | 0 <= k < i :: s[k] != c
  {
    if |s| > 0 && s[0] != c {
      FindIs(s[1..], c);
    }
  }

  function DropCr(s: string): string {
    if |s| > 0 && s[|s| - 1] == '\r' then s[..|s| - 1] else s
  }

  /** Splitting at every line feed, with the carriage return before it if there is one. */
  function SplitLines(s: string): seq<string>
    decreases |s|
  {
    var i := Find(s, '\n');
    if i == |s| then [s] else [DropCr(s[..i])] + SplitLines(s[i + 1..])
  }

  function Join(lines: seq<string>): string {
    if |lines| == 0 then "" else if |lines| == 1 then lines[0] else lines[0] + "\n" + Join(lines[1..])
  }

  // ---------------------------------------------------------------- the parser

  /** Takes one pair of quotes off a value that is quoted as a whole. */
  function StripQuotes(q: char, v: string): string {
    if |v| >= 2 && v[0] == q && v[|v| - 1] == q && forall i | 0 < i < |v| - 1 :: !LineEnd(v[i]) then v[1..|v| - 1] else v
  }

  /** What the parser makes of the text after the equals sign. */
  function Clean(t: CharTables, v: string): string {
    StripQuotes('\'', StripQuotes('"', Trim(v, t.isSpace)))
  }

  datatype Assignment = Assignment(key: string, value: string)

  function ParseTrimmed(t: CharTables, line: string): Option<Assignment> {
    if line == "" || line[0] == '#' then None
    else
      var sep := Find(line, '=');
      if sep == 0 || sep == |line| then None
      else Some(Assignment(Trim(line[..sep], t.isSpace), Clean(t, line[sep + 1..])))
  }

  function ParseLine(t: CharTables, rawLine: string): Option<Assignment> {
    ParseTrimmed(t, Trim(rawLine, t.isSpace))
  }

  /** The value a line gives to `key`, if it assigns it. */
  function ValueAt(t: CharTables, line: string, key: string): Option<string> {
    var read := ParseLine(t, line);
    if read.Some? && read.value.key == key then Some(read.value.value) else None
  }

  function Reader(t: CharTables, key: string): string -> Option<string> {
    line => ValueAt(t, line, key)
  }

  /** The value of the last line that has one. */
  function Last(value: string -> Option<string>, lines: seq<string>): Option<string>
    decreases |lines|
  {
    if |lines| == 0 then None
    else if value(lines[|lines| - 1]).Some? then value(lines[|lines| - 1])
    else Last(value, lines[..|lines| - 1])
  }

  lemma LastNext(value: string -> Option<string>, lines: seq<string>, line: string)
    ensures Last(value, lines + [line]) == if value(line).Some? then value(line) else Last(value, lines)
  {
    assert (lines + [line])[..|lines|] == lines;
  }

  function ValueOf(parsed: map<string, string>, key: string): Option<string> {
    if key in parsed then Some(parsed[key]) else None
  }

  method ParseEnvFile(t: CharTables, contents: string) returns (parsed: map<string, string>)
    ensures Reads(t, SplitLines(contents), parsed)
  {
    parsed := map[];
    var lines := SplitLines(contents);
    for i := 0 to |lines|
      invariant Reads(t, lines[..i], parsed)
    {
      ReadsNext(t, lines[..i], parsed, lines[i], ParseLine(t, lines[i]));
      assert lines[..i] + [lines[i]] == lines[..i + 1];
      var line := Trim(lines[i], t.isSpace);
      if line == "" || line[0] == '#' { continue; }
      var separatorIndex := Find(line, '=');
      if separatorIndex == 0 || separatorIndex == |line| { continue; }
      var key := Trim(line[..separatorIndex], t.isSpace);
      parsed := parsed[key := Clean(t, line[separatorIndex + 1..])];
    }
    assert lines[..|lines|] == lines;
  }

  /** The record holds for every key its last value. */
  ghost predicate Reads(t: CharTables, lines: seq<string>, parsed: map<string, string>) {
    forall key :: ValueOf(parsed, key) == Last(Reader(t, key), lines)
  }

  lemma ReadNext(t: CharTables, lines: seq<string>, line: string, read: Option<Assignment>, key: string)
    requires read == ParseLine(t, line)
    ensures Last(Reader(t, key), lines + [line])
            == if read.Some? && read.value.key == key then Some(read.value.value) else Last(Reader(t, key), lines)
  {
    LastNext(Reader(t, key), lines, line);
  }

  lemma ReadsNext(t: CharTables, lines: seq<string>, parsed: map<string, string>, line: string, read: Option<Assignment>)
    requires Reads(t, lines, parsed)
    requires read == ParseLine(t, line)
    ensures Reads(t, lines + [line], if read.None? then parsed else parsed[read.value.key := read.value.value])
  {
    var after := if read.None? then parsed else parsed[read.value.key := read.value.value];
    forall key ensures ValueOf(after, key) == Last(Reader(t, key), lines + [line]) {
      ReadNext(t, lines, line, read, key);
      assert ValueOf(parsed, key) == Last(Reader(t, key), lines);
    }
  }

  // ---------------------------------------------------------------- the rewriter

  predicate KeyChar(c: char) {
    'A' <= c <= 'Z' || '0' <= c <= '9' || c == '_'
  }

  predicate EnvKey(s: string) {
    |s| > 0 && forall i | 0 <= i < |s| :: KeyChar(s[i])
  }

  /** The key of a line that matches `^([A-Z0-9_]+)=.*$`. */
  function MatchKey(line: string): Option<string> {
    var sep := Find(line, '=');
    if sep < |line| && EnvKey(line[..sep]) && forall i | sep < i < |line| :: !LineEnd(line[i]) then Some(line[..sep]) else None
  }

  /** A key to set, or to leave alone (`None` stands for null); listed in enumeration order. */
  datatype Setting = Setting(key: string, value: Option<string>)

  function NewValue(values: seq<Setting>, key: string): Option<string> {
    if |values| == 0 then None else if values[0].key == key then values[0].value else NewValue(values[1..], key)
  }

  function Render(key: string, value: string): string {
    key + "=" + value
  }

  /** The key a line is replaced for. */
  function Takes(values: seq<Setting>, line: string): Option<string> {
    var key := MatchKey(line);
    if key.Some? && NewValue(values, key.value).Some? then key else None
  }

  function UpdateLine(values: seq<Setting>, line: string): string {
    var key := Takes(values, line);
    if key.Some? then Render(key.value, NewValue(values, key.value).value) else line
  }

  function Updater(values: seq<Setting>): string -> string {
    line => UpdateLine(values, line)
  }

  /** The updated lines, without the empty ones. */
  function Kept(update: string -> string, lines: seq<string>): seq<string>
    decreases |lines|
  {
    if |lines| == 0 then []
    else
      var line := update(lines[|lines| - 1]);
      Kept(update, lines[..|lines| - 1]) + if line == "" then [] else [line]
  }

  lemma KeptNext(update: string -> string, lines: seq<string>, line: string)
    ensures Kept(update, lines + [line]) == Kept(update, lines) + if update(line) == "" then [] else [update(line)]
  {
    assert (lines + [line])[..|lines|] == lines;
  }

  function Handled(values: seq<Setting>, lines: seq<string>): set<string> {
    set i | 0 <= i < |lines| && Takes(values, lines[i]).Some? :: Takes(values, lines[i]).value
  }

  /** Lines for the settings no line was replaced for. */
  function Missing(settings: seq<Setting>, handled: set<string>): seq<string> {
    if |settings| == 0 then []
    else
      (if settings[0].value.Some? && settings[0].key !in handled then [Render(settings[0].key, settings[0].value.value)] else [])
      + Missing(settings[1..], handled)
  }

  /** Empty lines go; an added line is never empty. */
  function UpdatedLines(values: seq<Setting>, lines: seq<string>): seq<string> {
    Kept(Updater(values), lines) + Missing(values, Handled(values, lines))
  }

  function EndLine(s: string): string {
    if |s| > 0 && s[|s| - 1] == '\n' then s else s + "\n"
  }

  function OldLines(contents: string): seq<string> {
    if contents == "" then [] else SplitLines(contents)
  }

  function Updated(values: seq<Setting>, contents: string): string {
    EndLine(Join(UpdatedLines(values, OldLines(contents))))
  }

  method UpdateEnvFileContents(existingContents: string, values: seq<Setting>) returns (contents: string)
    ensures contents == Updated(values, existingContents)
  {
    var lines := if existingContents == "" then [] else SplitLines(existingContents);
    var handled: set<string> := {};
    var next: seq<string> := [];
    for i := 0 to |lines|
      invariant next == Kept(Updater(values), lines[..i]) && handled == Handled(values, lines[..i])
    {
      var line := lines[i];
      KeptNext(Updater(values), lines[..i], line);
      HandledNext(values, lines[..i], line);
      assert lines[..i] + [line] == lines[..i + 1];
      var key := MatchKey(line);
      if key.Some? && NewValue(values, key.value).Some? {
        handled := handled + {key.value};
        line := Render(key.value, NewValue(values, key.value).value);
      }
      if line != "" {
        next := next + [line];
      }
    }
    assert lines[..|lines|] == lines;
    contents := Join(next + Missing(values, handled));
    if !(|contents| > 0 && contents[|contents| - 1] == '\n') {
      contents := contents + "\n";
    }
  }

  lemma HandledNext(values: seq<Setting>, lines: seq<string>, line: string)
    ensures var key := Takes(values, line);
            Handled(values, lines + [line]) == Handled(values, lines) + if key.Some? then {key.value} else {}
  {
    var all := lines + [line];
    assert all[..|lines|] == lines && all[|lines|] == line;
    forall key ensures key in Handled(values, all)
                       <==> key in Handled(values, lines) || (Takes(values, line) == Some(key)) {
      if key in Handled(values, lines) {
        var i :| 0 <= i < |lines| && Takes(values, lines[i]) == Some(key);
        assert all[i] == lines[i];
      }
      if Takes(values, line) == Some(key) {
        assert Takes(values, all[|lines|]) == Some(key);
      }
    }
  }
}

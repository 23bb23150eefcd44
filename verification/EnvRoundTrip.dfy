/**
 * Lines of an env file: what the parser and the rewriter make of one, how lines become text and back,
 * and what replacing lines does to the last value of a key.
 */
module EnvRoundTrip {
  import opened Wrappers
  import opened Strings
  import opened EnvFile

  /** White space, as far as env lines are concerned. */
  ghost predicate EnvTables(t: CharTables) {
    t.isSpace('\n') && t.isSpace('\r') && !t.isSpace('=') && forall c | KeyChar(c) :: !t.isSpace(c)
  }

  /** The settings name env keys, each once. */
  ghost predicate Keyed(values: seq<Setting>) {
    && (forall i | 0 <= i < |values| :: EnvKey(values[i].key))
    && (forall i, j | 0 <= i < j < |values| :: values[i].key != values[j].key)
  }

  /** And give single-line values. */
  ghost predicate Sane(values: seq<Setting>) {
    Keyed(values) && forall i | 0 <= i < |values| :: values[i].value.Some? ==> SingleLine(values[i].value.value)
  }

  predicate SingleLine(v: string) {
    forall i | 0 <= i < |v| :: !LineEnd(v[i])
  }

  // ---------------------------------------------------------------- one line

  lemma {:induction false} FindFirst(s: string, c: char, i: nat)
    requires i < |s| && s[i] == c && forall k | 0 <= k < i :: s[k] != c
    ensures Find(s, c) == i
  {
    FindIs(s, c);
  }

  lemma RenderFinds(key: string, v: string)
    requires EnvKey(key)
    ensures var line := Render(key, v); Find(line, '=') == |key| && line[..|key|] == key && line[|key| + 1..] == v
  {
    var line := Render(key, v);
    assert forall k | 0 <= k < |key| :: line[k] == key[k] && KeyChar(key[k]);
    FindFirst(line, '=', |key|);
  }

  /** A rendered line is matched for its key, exactly when the value is single-line. */
  lemma RenderMatches(key: string, v: string)
    requires EnvKey(key)
    ensures MatchKey(Render(key, v)) == if SingleLine(v) then Some(key) else None
  {
    RenderFinds(key, v);
    var line := Render(key, v);
    assert forall i | 0 <= i < |v| :: line[|key| + 1 + i] == v[i];
  }

  /** A matched line is the rendering of its key and its value. */
  lemma MatchedIsRendered(line: string)
    requires MatchKey(line).Some?
    ensures var key, v := MatchKey(line).value, line[Find(line, '=') + 1..];
            EnvKey(key) && SingleLine(v) && line == Render(key, v)
  {
    var sep := Find(line, '=');
    FindIs(line, '=');
    assert line == line[..sep] + "=" + line[sep + 1..];
  }

  /** The parser reads a rendered line as the key and the cleaned value, whatever the value. */
  lemma RenderParses(t: CharTables, key: string, v: string)
    requires EnvTables(t) && EnvKey(key)
    ensures ParseLine(t, Render(key, v)) == Some(Assignment(key, Clean(t, v)))
  {
    var head := key + "=";
    var line, space := Render(key, v), t.isSpace;
    assert KeyChar(key[0]) && KeyChar(key[|key| - 1]) && line == head + v && line[0] == key[0];
    TrimRightConcat(head, v, space);
    var kept := TrimRight(v, space);
    assert Trim(line, space) == Render(key, kept);
    RenderFinds(key, kept);
    TrimOfTrimRight(v, space);
    assert Trim(key, space) == key;
  }

  /** A carriage return at the end of a line does not matter to the parser. */
  lemma CrIsIgnored(t: CharTables, line: string)
    requires EnvTables(t)
    ensures ParseLine(t, DropCr(line)) == ParseLine(t, line)
  {
    if |line| > 0 && line[|line| - 1] == '\r' {
      TrimSnoc(DropCr(line), '\r', t.isSpace);
      assert DropCr(line) + ['\r'] == line;
    }
  }

  lemma EmptyLineIsSkipped(t: CharTables)
    ensures ParseLine(t, "") == None
  {
  }

  // ---------------------------------------------------------------- lines and text

  predicate Feedless(lines: seq<string>) {
    forall i | 0 <= i < |lines| :: '\n' !in lines[i]
  }

  lemma {:induction false} SplitIsFeedless(s: string)
    ensures |SplitLines(s)| > 0 && Feedless(SplitLines(s))
    decreases |s|
  {
    var i := Find(s, '\n');
    FindIs(s, '\n');
    if i < |s| {
      SplitIsFeedless(s[i + 1..]);
    }
  }

  function DropCrs(lines: seq<string>): seq<string> {
    seq(|lines|, i requires 0 <= i < |lines| => DropCr(lines[i]))
  }

  function Terminated(lines: seq<string>): string {
    if |lines| == 0 then "" else lines[0] + "\n" + Terminated(lines[1..])
  }

  lemma SplitOne(line: string, rest: string)
    requires '\n' !in line
    ensures SplitLines(line + "\n" + rest) == [DropCr(line)] + SplitLines(rest)
  {
    var s := line + "\n" + rest;
    assert s[|line|] == '\n' && s[..|line|] == line && s[|line| + 1..] == rest;
    assert forall k | 0 <= k < |line| :: s[k] == line[k];
    FindFirst(s, '\n', |line|);
  }

  lemma DropCrsFirst(lines: seq<string>)
    requires |lines| > 0
    ensures DropCrs(lines) == [DropCr(lines[0])] + DropCrs(lines[1..])
  {
  }

  lemma {:induction false} SplitTerminated(lines: seq<string>)
    requires Feedless(lines)
    ensures SplitLines(Terminated(lines)) == DropCrs(lines) + [""]
  {
    if |lines| > 0 {
      var rest := Terminated(lines[1..]);
      SplitTerminated(lines[1..]);
      SplitOne(lines[0], rest);
      DropCrsFirst(lines);
    } else {
      assert SplitLines("") == [""];
    }
  }

  lemma {:induction false} JoinThenEnd(lines: seq<string>)
    requires Feedless(lines) && |lines| > 0
    ensures Join(lines) + "\n" == Terminated(lines)
    ensures Join(lines) == "" || (lines[|lines| - 1] != "" ==> Join(lines)[|Join(lines)| - 1] != '\n')
  {
    if |lines| > 1 {
      JoinThenEnd(lines[1..]);
      assert lines[1..][|lines| - 2] == lines[|lines| - 1];
      assert Join(lines) + "\n" == lines[0] + "\n" + (Join(lines[1..]) + "\n");
    } else {
      assert Join(lines) + "\n" == lines[0] + "\n" + "";
    }
  }

  lemma {:induction false} KeptIsClean(update: string -> string, lines: seq<string>)
    requires Feedless(lines) && forall line :: '\n' !in line ==> '\n' !in update(line)
    ensures Feedless(Kept(update, lines)) && "" !in Kept(update, lines)
    decreases |lines|
  {
    if |lines| > 0 {
      KeptIsClean(update, lines[..|lines| - 1]);
    }
  }

  lemma UpdatedLineIsClean(values: seq<Setting>, line: string)
    requires Sane(values) && '\n' !in line
    ensures '\n' !in Updater(values)(line)
  {
    if Takes(values, line).Some? {
      var key := Takes(values, line).value;
      NewValueIsSane(values, key);
      RenderIsClean(key, NewValue(values, key).value);
    }
  }

  lemma {:induction false} NewValueIsSane(values: seq<Setting>, key: string)
    requires Sane(values) && NewValue(values, key).Some?
    ensures EnvKey(key) && SingleLine(NewValue(values, key).value)
  {
    if values[0].key != key {
      NewValueIsSane(values[1..], key);
    }
  }

  lemma RenderIsClean(key: string, v: string)
    requires EnvKey(key) && SingleLine(v)
    ensures '\n' !in Render(key, v) && Render(key, v) != ""
  {
    var line := Render(key, v);
    forall i | 0 <= i < |line| ensures line[i] != '\n' {
      if i < |key| { assert line[i] == key[i]; } else if i > |key| { assert line[i] == v[i - |key| - 1]; }
    }
  }

  lemma {:induction false} MissingIsClean(settings: seq<Setting>, handled: set<string>)
    requires Sane(settings)
    ensures Feedless(Missing(settings, handled)) && "" !in Missing(settings, handled)
  {
    if |settings| > 0 {
      MissingIsClean(settings[1..], handled);
      if settings[0].value.Some? {
        RenderIsClean(settings[0].key, settings[0].value.value);
      }
    }
  }

  /** The rewritten text is its lines, each ended by a line feed; without lines it is one line feed. */
  lemma UpdatedText(values: seq<Setting>, contents: string)
    requires Sane(values)
    ensures var lines := UpdatedLines(values, OldLines(contents));
            && Feedless(lines) && "" !in lines
            && Updated(values, contents) == (if lines == [] then "\n" else Terminated(lines))
            && SplitLines(Updated(values, contents)) == (if lines == [] then [""] else DropCrs(lines)) + [""]
  {
    var lines := UpdatedLines(values, OldLines(contents));
    SplitIsFeedless(contents);
    forall line | '\n' !in line ensures '\n' !in Updater(values)(line) { UpdatedLineIsClean(values, line); }
    KeptIsClean(Updater(values), OldLines(contents));
    MissingIsClean(values, Handled(values, OldLines(contents)));
    EndedText(lines);
  }

  lemma EndedText(lines: seq<string>)
    requires Feedless(lines) && "" !in lines
    ensures var text := EndLine(Join(lines));
            && text == (if lines == [] then "\n" else Terminated(lines))
            && SplitLines(text) == (if lines == [] then [""] else DropCrs(lines)) + [""]
  {
    if lines == [] {
      SplitOne("", "");
      assert "" + "\n" + "" == "\n" && SplitLines("") == [""];
    } else {
      JoinThenEnd(lines);
      assert lines[|lines| - 1] in lines;
      SplitTerminated(lines);
    }
  }

  // ---------------------------------------------------------------- last values

  lemma {:induction false} LastOfConcat(value: string -> Option<string>, a: seq<string>, b: seq<string>)
    ensures Last(value, a + b) == if Last(value, b).Some? then Last(value, b) else Last(value, a)
    decreases |b|
  {
    if |b| > 0 {
      var front := b[..|b| - 1];
      LastOfConcat(value, a, front);
      LastNext(value, a + front, b[|b| - 1]);
      assert a + b == a + front + [b[|b| - 1]];
    } else {
      assert a + b == a;
    }
  }

  lemma {:induction false} LastIgnoresCrs(value: string -> Option<string>, lines: seq<string>)
    requires forall line :: value(DropCr(line)) == value(line)
    ensures Last(value, DropCrs(lines)) == Last(value, lines)
    decreases |lines|
  {
    if |lines| > 0 {
      var front := lines[..|lines| - 1];
      LastIgnoresCrs(value, front);
      assert DropCrs(lines)[..|lines| - 1] == DropCrs(front);
    }
  }

  predicate AnyHit(hits: string -> bool, lines: seq<string>) {
    exists i | 0 <= i < |lines| :: hits(lines[i])
  }

  /** The last line with a value is not hit, and an earlier line is. */
  predicate LastMissed(value: string -> Option<string>, hits: string -> bool, lines: seq<string>) {
    exists j | 0 <= j < |lines| :: LastMissedAt(value, hits, lines, j)
  }

  predicate LastMissedAt(value: string -> Option<string>, hits: string -> bool, lines: seq<string>, j: int) {
    && 0 <= j < |lines|
    && value(lines[j]).Some? && !hits(lines[j])
    && AnyHit(hits, lines[..j])
    && forall l | j < l < |lines| :: value(lines[l]) == None
  }

  lemma AnyHitNext(hits: string -> bool, lines: seq<string>, line: string)
    ensures AnyHit(hits, lines + [line]) <==> AnyHit(hits, lines) || hits(line)
  {
    var all := lines + [line];
    if i :| 0 <= i < |lines| && hits(lines[i]) {
      assert hits(all[i]);
    }
    assert all[|lines|] == line;
  }

  lemma LastMissedNext(value: string -> Option<string>, hits: string -> bool, lines: seq<string>, line: string)
    ensures LastMissed(value, hits, lines + [line])
            <==> if value(line).Some? then !hits(line) && AnyHit(hits, lines) else LastMissed(value, hits, lines)
  {
    var all := lines + [line];
    assert all[..|lines|] == lines && all[|lines|] == line;
    forall j | 0 <= j < |lines| && value(line) == None
      ensures LastMissedAt(value, hits, all, j) <==> LastMissedAt(value, hits, lines, j)
    {
      assert all[..j] == lines[..j];
      assert forall l | 0 <= l < |lines| :: all[l] == lines[l];
    }
    if value(line).Some? {
      assert LastMissedAt(value, hits, all, |lines|) <==> !hits(line) && AnyHit(hits, lines);
    }
  }

  /** Without a hit line there is none to miss. */
  lemma NoneMissed(value: string -> Option<string>, hits: string -> bool, lines: seq<string>)
    ensures LastMissed(value, hits, lines) ==> AnyHit(hits, lines)
  {
    if j :| 0 <= j < |lines| && LastMissedAt(value, hits, lines, j) {
      var i :| 0 <= i < j && hits(lines[..j][i]);
      assert hits(lines[i]);
    }
  }

  /**
   * Updating lines, seen by one key: hit lines get its given value, if there is one, and nothing else
   * changes what a line says about it.
   */
  ghost predicate UpdatesKey(value: string -> Option<string>, hits: string -> bool, update: string -> string, given: Option<string>) {
    value("") == None && forall line :: UpdatesLine(value, hits, update, given, line)
  }

  predicate UpdatesLine(value: string -> Option<string>, hits: string -> bool, update: string -> string, given: Option<string>,
                        line: string)
  {
    && (hits(line) ==> value(line).Some?)
    && value(update(line)) == if given.Some? && hits(line) then given else value(line)
  }

  /** The kept lines give the given value where a hit line is last, and the old last value otherwise. */
  lemma {:induction false} KeptValue(value: string -> Option<string>, hits: string -> bool, update: string -> string,
                                     given: Option<string>, lines: seq<string>)
    requires UpdatesKey(value, hits, update, given)
    ensures Last(value, Kept(update, lines))
            == if given.Some? && AnyHit(hits, lines) && !LastMissed(value, hits, lines) then given else Last(value, lines)
    decreases |lines|
  {
    if |lines| > 0 {
      var front, line := lines[..|lines| - 1], lines[|lines| - 1];
      assert lines == front + [line];
      KeptValue(value, hits, update, given, front);
      AnyHitNext(hits, front, line);
      LastMissedNext(value, hits, front, line);
      NoneMissed(value, hits, front);
      assert UpdatesLine(value, hits, update, given, line);
      KeptNext(update, front, line);
      LastNext(value, front, line);
      LastNext(value, Kept(update, front), update(line));
      assert update(line) == "" ==> Kept(update, lines) == Kept(update, front);
    }
  }

  // ---------------------------------------------------------------- one key of a file

  function Hits(key: string): string -> bool {
    line => MatchKey(line) == Some(key)
  }

  /**
   * The line the parser reads last for `key` is not one the rewriter replaces (it is indented, say),
   * and an earlier one is.
   */
  predicate Shadowed(t: CharTables, lines: seq<string>, key: string) {
    LastMissed(Reader(t, key), Hits(key), lines)
  }

  lemma MatchedAssigns(t: CharTables, line: string)
    requires EnvTables(t) && MatchKey(line).Some?
    ensures ParseLine(t, line).Some? && ParseLine(t, line).value.key == MatchKey(line).value
  {
    MatchedIsRendered(line);
    RenderParses(t, MatchKey(line).value, line[Find(line, '=') + 1..]);
  }

  lemma {:induction false} AbsentHasNoValue(settings: seq<Setting>, key: string)
    requires forall i | 0 <= i < |settings| :: settings[i].key != key
    ensures NewValue(settings, key) == None
  {
    if |settings| > 0 {
      AbsentHasNoValue(settings[1..], key);
    }
  }

  lemma HandledAreHit(values: seq<Setting>, lines: seq<string>, key: string)
    ensures key in Handled(values, lines) <==> NewValue(values, key).Some? && AnyHit(Hits(key), lines)
  {
    if NewValue(values, key).Some? && AnyHit(Hits(key), lines) {
      var i :| 0 <= i < |lines| && Hits(key)(lines[i]);
      assert Takes(values, lines[i]) == Some(key);
    }
    if key in Handled(values, lines) {
      var i :| 0 <= i < |lines| && Takes(values, lines[i]) == Some(key);
      assert Hits(key)(lines[i]);
    }
  }

  // ---------------------------------------------------------------- the round trip

  /** The value a key has in a file. */
  function Parsed(t: CharTables, contents: string, key: string): Option<string> {
    Last(Reader(t, key), SplitLines(contents))
  }

  lemma ParsedOldLines(t: CharTables, contents: string, key: string)
    ensures Last(Reader(t, key), OldLines(contents)) == Parsed(t, contents, key)
  {
    if contents == "" {
      EmptyLineIsSkipped(t);
      LastNext(Reader(t, key), [], "");
      assert [] + [""] == SplitLines("");
    }
  }
}

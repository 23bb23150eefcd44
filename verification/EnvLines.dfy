/**
 * The env-file code in terms of its texts alone: which lines assign a key and which are replaced, what
 * quotes come off, how a text falls into lines, and which lines an update keeps and adds.
 */
module EnvLines {
  import opened Wrappers
  import opened Strings
  import opened Filters
  import opened EnvFile
  import opened EnvRoundTrip

  const LINE_ENDS := "\n\r\U{2028}\U{2029}"

  /** Without any of these characters. */
  predicate Lacks(s: string, chars: string) {
    forall i | 0 <= i < |s| :: s[i] !in chars
  }

  lemma LineEndsAre(s: string)
    ensures Lacks(s, LINE_ENDS) <==> SingleLine(s)
  {
    assert forall c :: c in LINE_ENDS <==> c == LINE_ENDS[0] || c == LINE_ENDS[1] || c == LINE_ENDS[2] || c == LINE_ENDS[3];
  }

  // ---------------------------------------------------------------- quotes

  /** A pair of quotes around a single line comes off; anything else stays as it is. */
  lemma QuotesComeOff(q: char, v: string, inner: string)
    ensures v == [q] + inner + [q] && Lacks(inner, LINE_ENDS) ==> StripQuotes(q, v) == inner
    ensures StripQuotes(q, v) == v || (v == [q] + StripQuotes(q, v) + [q] && Lacks(StripQuotes(q, v), LINE_ENDS))
  {
    LineEndsAre(inner);
    var stripped := StripQuotes(q, v);
    LineEndsAre(stripped);
    if v == [q] + inner + [q] {
      assert v[1..|v| - 1] == inner;
    }
  }

  /** A trimmed value is read without its double quotes, and then without its single quotes. */
  lemma ValuesAreUnquoted(t: CharTables, v: string)
    requires EnvTables(t) && !t.isSpace('"') && !t.isSpace('\'') && Lacks(v, LINE_ENDS)
    ensures Clean(t, "\"" + v + "\"") == StripQuotes('\'', v)
    ensures Clean(t, "'" + v + "'") == v
    ensures Clean(t, "\"'" + v + "'\"") == v
  {
    var double, single, both := "\"" + v + "\"", "'" + v + "'", "\"'" + v + "'\"";
    assert double == ['"'] + v + ['"'] && single == ['\''] + v + ['\''] && both == ['"'] + single + ['"'];
    QuotesComeOff('"', double, v);
    QuotesComeOff('\'', single, v);
    QuotesComeOff('"', both, single);
  }

  // ---------------------------------------------------------------- one line

  /** Upper-case letters, digits and underscores, at least one. */
  predicate Shouted(key: string) {
    key != "" && forall i | 0 <= i < |key| :: 'A' <= key[i] <= 'Z' || '0' <= key[i] <= '9' || key[i] == '_'
  }

  /** The rewriter replaces a line for `key` exactly if it is the key, an equals sign and the rest of one line. */
  lemma ReplacesExactly(line: string, key: string)
    ensures MatchKey(line) == Some(key) <==> Shouted(key) && exists v :: line == key + "=" + v && Lacks(v, LINE_ENDS)
  {
    if MatchKey(line) == Some(key) {
      MatchedIsRendered(line);
      LineEndsAre(line[Find(line, '=') + 1..]);
    }
    if v :| Shouted(key) && line == key + "=" + v && Lacks(v, LINE_ENDS) {
      assert EnvKey(key);
      LineEndsAre(v);
      RenderMatches(key, v);
    }
  }

  /**
   * The parser reads an assignment from a line exactly if the line, trimmed, is no comment and has an equals
   * sign behind some text; key and value are what stands around the first one, trimmed and unquoted.
   */
  lemma AssignsExactly(t: CharTables, line: string, key: string, value: string)
    ensures ParseLine(t, line) == Some(Assignment(key, value))
            <==> exists a, b :: Trim(line, t.isSpace) == a + "=" + b && a != "" && '=' !in a && a[0] != '#'
                                && key == Trim(a, t.isSpace) && value == Clean(t, b)
  {
    var trimmed := Trim(line, t.isSpace);
    FirstSign(trimmed);
    if a, b :| trimmed == a + "=" + b && a != "" && '=' !in a && a[0] != '#'
               && key == Trim(a, t.isSpace) && value == Clean(t, b) {
      SignBehind(a, b);
    }
  }

  lemma FirstSign(s: string)
    ensures var sep := Find(s, '=');
            sep < |s| ==> s == s[..sep] + "=" + s[sep + 1..] && '=' !in s[..sep] && (sep > 0 ==> s[..sep][0] == s[0])
  {
    FindIs(s, '=');
  }

  lemma SignBehind(a: string, b: string)
    requires '=' !in a
    ensures var s := a + "=" + b; Find(s, '=') == |a| && s[..|a|] == a && s[|a| + 1..] == b
  {
    var s := a + "=" + b;
    assert s[|a|] == '=' && forall k | 0 <= k < |a| :: s[k] == a[k];
    FindFirst(s, '=', |a|);
  }

  // ---------------------------------------------------------------- lines and text

  /** A text falls into lines at every line feed, with or without a carriage return before it. */
  lemma FallsIntoLines(line: string, rest: string)
    requires '\n' !in line
    ensures SplitLines(line + "\r\n" + rest) == [line] + SplitLines(rest)
    ensures (line == "" || line[|line| - 1] != '\r') ==> SplitLines(line + "\n" + rest) == [line] + SplitLines(rest)
    ensures SplitLines(line) == [line]
  {
    var returned := line + "\r";
    assert returned[..|line|] == line;
    assert line + "\r\n" + rest == returned + "\n" + rest;
    SplitOne(returned, rest);
    SplitOne(line, rest);
    FindIs(line, '\n');
  }

  /** A text that does not end in a line feed gets one, and no other does. */
  lemma EndsInOneFeed(s: string)
    ensures EndLine(s + "\n") == s + "\n"
    ensures (s == "" || s[|s| - 1] != '\n') ==> EndLine(s) == s + "\n"
  {
  }

  // ---------------------------------------------------------------- the updated lines

  /** What becomes of a line: it is the new assignment of a key that is set, or stays. */
  ghost predicate Becomes(values: seq<Setting>, line: string, next: string) {
    if exists i, v :: SetsAt(values, i) && line == values[i].key + "=" + v && Lacks(v, LINE_ENDS)
    then exists i, v :: SetsAt(values, i) && line == values[i].key + "=" + v && Lacks(v, LINE_ENDS)
                        && next == values[i].key + "=" + values[i].value.value
    else next == line
  }

  predicate SetsAt(values: seq<Setting>, i: int) {
    0 <= i < |values| && values[i].value.Some?
  }

  lemma {:induction false} NewValueAt(values: seq<Setting>, i: nat)
    requires Keyed(values) && i < |values|
    ensures NewValue(values, values[i].key) == values[i].value
  {
    if i > 0 {
      NewValueAt(values[1..], i - 1);
    }
  }

  lemma {:induction false} NewValueFrom(values: seq<Setting>, key: string)
    requires NewValue(values, key).Some?
    ensures exists i :: SetsAt(values, i) && values[i] == Setting(key, NewValue(values, key))
  {
    if values[0].key == key {
      assert SetsAt(values, 0);
    } else {
      NewValueFrom(values[1..], key);
      var i :| SetsAt(values[1..], i) && values[1..][i] == Setting(key, NewValue(values, key));
      assert SetsAt(values, i + 1);
    }
  }

  lemma LineBecomes(values: seq<Setting>, line: string)
    requires Keyed(values)
    ensures Becomes(values, line, UpdateLine(values, line))
  {
    if i, v :| SetsAt(values, i) && line == values[i].key + "=" + v && Lacks(v, LINE_ENDS) {
      ReplacesExactly(line, values[i].key);
      NewValueAt(values, i);
      assert UpdateLine(values, line) == values[i].key + "=" + values[i].value.value;
    } else if Takes(values, line).Some? {
      var key := Takes(values, line).value;
      ReplacesExactly(line, key);
      NewValueFrom(values, key);
    }
  }

  predicate NotEmpty(line: string) {
    line != ""
  }

  lemma {:induction false} KeptAre(update: string -> string, lines: seq<string>)
    requires forall line :: update(line) == "" <==> line == ""
    ensures Kept(update, lines) == Mapped(update, Only(NotEmpty, lines))
    decreases |lines|
  {
    if |lines| > 0 {
      KeptAre(update, lines[..|lines| - 1]);
    }
  }

  /**
   * An update keeps the lines that are not empty, in order: a line of a key that is set has its new value,
   * every other line, comments among them, is as it was.
   */
  lemma LinesAreKept(values: seq<Setting>, lines: seq<string>)
    requires Keyed(values)
    ensures var before, kept := Only(NotEmpty, lines), Kept(Updater(values), lines);
            |kept| == |before| && forall k | 0 <= k < |kept| :: Becomes(values, before[k], kept[k])
  {
    forall line ensures Updater(values)(line) == "" <==> line == "" { BecomesEmpty(values, line); }
    KeptAre(Updater(values), lines);
    forall k | 0 <= k < |Only(NotEmpty, lines)|
      ensures Becomes(values, Only(NotEmpty, lines)[k], Updater(values)(Only(NotEmpty, lines)[k]))
    {
      LineBecomes(values, Only(NotEmpty, lines)[k]);
    }
  }

  lemma BecomesEmpty(values: seq<Setting>, line: string)
    ensures UpdateLine(values, line) == "" <==> line == ""
  {
  }

  function IsMissing(handled: set<string>): Setting -> bool {
    (s: Setting) => s.value.Some? && s.key !in handled
  }

  function Assigning(s: Setting): string {
    s.key + "=" + s.value.GetOr("")
  }

  /** The line for a setting is added, in the order of the settings, if no line of the file has its key. */
  lemma {:induction false} MissingAreAdded(settings: seq<Setting>, handled: set<string>)
    ensures Missing(settings, handled) == Mapped(Assigning, Only(IsMissing(handled), settings))
  {
    if |settings| > 0 {
      var rest := Only(IsMissing(handled), settings[1..]);
      MissingAreAdded(settings[1..], handled);
      OnlyOfCons(IsMissing(handled), settings);
      MappedCons(Assigning, settings[0], rest);
      if !IsMissing(handled)(settings[0]) {
        assert [] + rest == rest && [] + Missing(settings[1..], handled) == Missing(settings[1..], handled);
      }
    }
  }

  lemma HandledExactly(values: seq<Setting>, lines: seq<string>, i: nat)
    requires Keyed(values) && SetsAt(values, i)
    ensures values[i].key in Handled(values, lines)
            <==> exists k, v :: 0 <= k < |lines| && lines[k] == values[i].key + "=" + v && Lacks(v, LINE_ENDS)
  {
    var key := values[i].key;
    NewValueAt(values, i);
    forall line ensures Takes(values, line) == Some(key) <==> exists v :: line == key + "=" + v && Lacks(v, LINE_ENDS) {
      ReplacesExactly(line, key);
    }
    if key in Handled(values, lines) {
      var k :| 0 <= k < |lines| && Takes(values, lines[k]) == Some(key);
    }
    if k, v :| 0 <= k < |lines| && lines[k] == key + "=" + v && Lacks(v, LINE_ENDS) {
      assert Takes(values, lines[k]) == Some(key);
    }
  }
}

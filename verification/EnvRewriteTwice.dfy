/** Rewriting an env file twice (scripts/setup-stripe-billing.ts:258-280). */
module EnvRewriteTwice {
  import opened Wrappers
  import opened EnvFile
  import opened EnvRoundTrip

  // ---------------------------------------------------------------- the second rewriting

  predicate EndsInCr(line: string) {
    |line| > 0 && line[|line| - 1] == '\r'
  }

  lemma {:induction false} NewValueOfSetting(settings: seq<Setting>, i: nat)
    requires Sane(settings) && i < |settings|
    ensures NewValue(settings, settings[i].key) == settings[i].value
  {
    if i > 0 {
      NewValueOfSetting(settings[1..], i - 1);
    }
  }

  /** A line that updates to itself and is not empty. */
  ghost predicate Settled(update: string -> string, lines: seq<string>) {
    forall i | 0 <= i < |lines| :: update(lines[i]) == lines[i] && lines[i] != ""
  }

  lemma {:induction false} SettledAreKept(update: string -> string, lines: seq<string>)
    requires Settled(update, lines)
    ensures Kept(update, lines) == lines
    decreases |lines|
  {
    if |lines| > 0 {
      SettledAreKept(update, lines[..|lines| - 1]);
    }
  }

  lemma {:induction false} KeptSettle(update: string -> string, lines: seq<string>)
    requires forall line :: update(update(line)) == update(line)
    ensures Settled(update, Kept(update, lines))
    decreases |lines|
  {
    if |lines| > 0 {
      KeptSettle(update, lines[..|lines| - 1]);
      var last := update(lines[|lines| - 1]);
      assert update(last) == last;
    }
  }

  lemma UpdateTwice(values: seq<Setting>, line: string)
    requires Sane(values)
    ensures Takes(values, UpdateLine(values, line)) == Takes(values, line)
    ensures UpdateLine(values, UpdateLine(values, line)) == UpdateLine(values, line)
  {
    if Takes(values, line).Some? {
      NewValueIsSane(values, Takes(values, line).value);
      RenderMatches(Takes(values, line).value, NewValue(values, Takes(values, line).value).value);
    }
  }

  lemma AddedLine(values: seq<Setting>, i: nat)
    requires Sane(values) && i < |values| && values[i].value.Some?
    ensures var line := Render(values[i].key, values[i].value.value);
            Takes(values, line) == Some(values[i].key) && UpdateLine(values, line) == line
  {
    NewValueOfSetting(values, i);
    RenderMatches(values[i].key, values[i].value.value);
  }

  lemma {:induction false} MissingSettle(values: seq<Setting>, i: nat, handled: set<string>)
    requires Sane(values) && i <= |values|
    ensures Settled(Updater(values), Missing(values[i..], handled))
    decreases |values| - i
  {
    if i < |values| {
      MissingSettle(values, i + 1, handled);
      assert values[i..][0] == values[i] && values[i..][1..] == values[i + 1..];
      if values[i].value.Some? { AddedLine(values, i); }
    }
  }

  lemma {:induction false} MissingCoverage(values: seq<Setting>, i: nat, handled: set<string>, k: nat)
    requires Sane(values) && i <= k < |values| && values[k].value.Some? && values[k].key !in handled
    ensures Render(values[k].key, values[k].value.value) in Missing(values[i..], handled)
    decreases |values| - i
  {
    assert values[i..][0] == values[i] && values[i..][1..] == values[i + 1..];
    if i < k {
      MissingCoverage(values, i + 1, handled, k);
    }
  }

  lemma {:induction false} AllHandled(settings: seq<Setting>, handled: set<string>)
    requires forall i | 0 <= i < |settings| :: settings[i].value.Some? ==> settings[i].key in handled
    ensures Missing(settings, handled) == []
  {
    if |settings| > 0 {
      AllHandled(settings[1..], handled);
    }
  }

  lemma {:induction false} KeptCoverage(update: string -> string, lines: seq<string>, i: nat)
    requires i < |lines| && update(lines[i]) != ""
    ensures update(lines[i]) in Kept(update, lines)
    decreases |lines|
  {
    if i < |lines| - 1 {
      KeptCoverage(update, lines[..|lines| - 1], i);
    }
  }

  /** After an update, some line takes every set key. */
  lemma SetKeyIsTaken(values: seq<Setting>, lines: seq<string>, k: nat)
    requires Sane(values) && k < |values| && values[k].value.Some?
    ensures exists line :: line in UpdatedLines(values, lines) && Takes(values, line) == Some(values[k].key)
  {
    var key := values[k].key;
    var handled := Handled(values, lines);
    NewValueOfSetting(values, k);
    if key in handled {
      var i :| 0 <= i < |lines| && Takes(values, lines[i]) == Some(key);
      UpdateTwice(values, lines[i]);
      NewValueIsSane(values, key);
      RenderIsClean(key, NewValue(values, key).value);
      KeptCoverage(Updater(values), lines, i);
      assert UpdateLine(values, lines[i]) in UpdatedLines(values, lines);
    } else {
      MissingCoverage(values, 0, handled, k);
      assert values[0..] == values;
      AddedLine(values, k);
      assert Render(key, values[k].value.value) in UpdatedLines(values, lines);
    }
  }

  lemma UpdatedAreSettled(values: seq<Setting>, lines: seq<string>)
    requires Sane(values)
    ensures Settled(Updater(values), UpdatedLines(values, lines))
  {
    var update := Updater(values);
    forall line ensures update(update(line)) == update(line) { UpdateTwice(values, line); }
    KeptSettle(update, lines);
    MissingSettle(values, 0, Handled(values, lines));
    assert values[0..] == values;
  }

  lemma NothingIsMissing(values: seq<Setting>, lines: seq<string>, after: seq<string>)
    requires Sane(values)
    ensures Missing(values, Handled(values, UpdatedLines(values, lines) + after)) == []
  {
    var next := UpdatedLines(values, lines);
    var all := next + after;
    forall k | 0 <= k < |values| && values[k].value.Some? ensures values[k].key in Handled(values, all) {
      SetKeyIsTaken(values, lines, k);
      var line :| line in next && Takes(values, line) == Some(values[k].key);
      var i :| 0 <= i < |next| && next[i] == line;
      assert all[i] == line;
    }
    AllHandled(values, Handled(values, all));
  }

  lemma BlanksAreDropped(update: string -> string, lines: seq<string>)
    requires update("") == ""
    ensures Kept(update, lines + [""]) == Kept(update, lines) == Kept(update, lines + ["", ""])
  {
    KeptNext(update, lines, "");
    KeptNext(update, lines + [""], "");
    assert lines + [""] + [""] == lines + ["", ""];
  }

  /** Updated lines are settled, with or without empty lines after them. */
  lemma UpdatedLinesSettle(values: seq<Setting>, lines: seq<string>)
    requires Sane(values)
    ensures var next := UpdatedLines(values, lines);
            UpdatedLines(values, next + [""]) == next == UpdatedLines(values, next + ["", ""])
  {
    var next, update := UpdatedLines(values, lines), Updater(values);
    UpdatedAreSettled(values, lines);
    SettledAreKept(update, next);
    BlanksAreDropped(update, next);
    NothingIsMissing(values, lines, [""]);
    NothingIsMissing(values, lines, ["", ""]);
  }

  lemma SettledText(values: seq<Setting>, contents: string)
    requires Sane(values)
    requires forall line :: line in UpdatedLines(values, OldLines(contents)) ==> !EndsInCr(line)
    ensures var next := UpdatedLines(values, OldLines(contents));
            OldLines(Updated(values, contents)) == next + if next == [] then ["", ""] else [""]
  {
    UpdatedText(values, contents);
    NothingDropped(UpdatedLines(values, OldLines(contents)));
    assert Updated(values, contents) != "";
  }

  lemma SameLinesSameText(values: seq<Setting>, a: string, b: string)
    requires UpdatedLines(values, OldLines(a)) == UpdatedLines(values, OldLines(b))
    ensures Updated(values, a) == Updated(values, b)
  {
  }

  lemma SettledLinesStay(values: seq<Setting>, contents: string)
    requires Sane(values)
    requires forall line :: line in UpdatedLines(values, OldLines(contents)) ==> !EndsInCr(line)
    ensures Updated(values, Updated(values, contents)) == Updated(values, contents)
  {
    UpdatedLinesSettle(values, OldLines(contents));
    SettledText(values, contents);
    SameLinesSameText(values, Updated(values, contents), contents);
  }

  lemma NothingDropped(lines: seq<string>)
    requires forall line :: line in lines ==> !EndsInCr(line)
    ensures DropCrs(lines) == lines
  {
    assert forall i | 0 <= i < |lines| :: lines[i] in lines;
  }

  // ---------------------------------------------------------------- carriage returns

  /** The carriage returns of a text. */
  function Crs(s: string): nat
    decreases |s|
  {
    if |s| == 0 then 0 else Crs(s[..|s| - 1]) + if s[|s| - 1] == '\r' then 1 else 0
  }

  lemma {:induction false} CrsOfConcat(a: string, b: string)
    ensures Crs(a + b) == Crs(a) + Crs(b)
    decreases |b|
  {
    if |b| > 0 {
      CrsOfConcat(a, b[..|b| - 1]);
      assert (a + b)[..|a + b| - 1] == a + b[..|b| - 1];
    } else {
      assert a + b == a;
    }
  }

  lemma {:induction false} NoCrs(s: string)
    ensures '\r' !in s ==> Crs(s) == 0
    decreases |s|
  {
    if |s| > 0 {
      NoCrs(s[..|s| - 1]);
    }
  }

  function CrsOf(lines: seq<string>): nat
    decreases |lines|
  {
    if |lines| == 0 then 0 else CrsOf(lines[..|lines| - 1]) + Crs(lines[|lines| - 1])
  }

  lemma {:induction false} CrsOfLines(a: seq<string>, b: seq<string>)
    ensures CrsOf(a + b) == CrsOf(a) + CrsOf(b)
    decreases |b|
  {
    if |b| > 0 {
      CrsOfLines(a, b[..|b| - 1]);
      assert (a + b)[..|a + b| - 1] == a + b[..|b| - 1];
    } else {
      assert a + b == a;
    }
  }

  lemma CrsNext(lines: seq<string>, line: string)
    ensures CrsOf(lines + [line]) == CrsOf(lines) + Crs(line)
  {
    assert (lines + [line])[..|lines|] == lines;
  }

  lemma {:induction false} CrsOfText(lines: seq<string>)
    ensures Crs(Terminated(lines)) == CrsOf(lines)
  {
    if |lines| > 0 {
      CrsOfText(lines[1..]);
      CrsOfLines([lines[0]], lines[1..]);
      assert [lines[0]] + lines[1..] == lines && [lines[0]][..0] == [];
      CrsOfConcat(lines[0] + "\n", Terminated(lines[1..]));
      CrsOfConcat(lines[0], "\n");
      NoCrs("\n");
    }
  }

  lemma {:induction false} DroppingLoses(lines: seq<string>)
    ensures CrsOf(DropCrs(lines)) <= CrsOf(lines)
    ensures (exists i | 0 <= i < |lines| :: EndsInCr(lines[i])) ==> CrsOf(DropCrs(lines)) < CrsOf(lines)
    decreases |lines|
  {
    if |lines| > 0 {
      var front := lines[..|lines| - 1];
      DroppingLoses(front);
      assert DropCrs(lines)[..|lines| - 1] == DropCrs(front);
      if i :| 0 <= i < |front| && EndsInCr(lines[i]) {
        assert EndsInCr(front[i]);
      }
    }
  }

  lemma RenderHasNoCr(key: string, v: string)
    requires EnvKey(key) && SingleLine(v)
    ensures Crs(Render(key, v)) == 0
  {
    var line := Render(key, v);
    forall i | 0 <= i < |line| ensures line[i] != '\r' {
      if i < |key| { assert line[i] == key[i]; } else if i > |key| { assert line[i] == v[i - |key| - 1]; }
    }
    NoCrs(line);
  }

  lemma UpdatingAddsNoCr(values: seq<Setting>, line: string)
    requires Sane(values)
    ensures Crs(UpdateLine(values, line)) <= Crs(line)
  {
    if Takes(values, line).Some? {
      NewValueIsSane(values, Takes(values, line).value);
      RenderHasNoCr(Takes(values, line).value, NewValue(values, Takes(values, line).value).value);
    }
  }

  lemma {:induction false} KeepingAddsNoCr(update: string -> string, lines: seq<string>)
    requires forall line :: Crs(update(line)) <= Crs(line)
    ensures CrsOf(Kept(update, lines)) <= CrsOf(lines)
    decreases |lines|
  {
    if |lines| > 0 {
      var front, last := lines[..|lines| - 1], lines[|lines| - 1];
      KeepingAddsNoCr(update, front);
      CrsNext(Kept(update, front), update(last));
      assert Crs(update(last)) <= Crs(last) && Kept(update, front) + [] == Kept(update, front);
    }
  }

  lemma {:induction false} MissingHasNoCr(settings: seq<Setting>, handled: set<string>)
    requires Sane(settings)
    ensures CrsOf(Missing(settings, handled)) == 0
  {
    if |settings| > 0 {
      MissingHasNoCr(settings[1..], handled);
      assert [] + Missing(settings[1..], handled) == Missing(settings[1..], handled);
      if settings[0].value.Some? && settings[0].key !in handled {
        var line := Render(settings[0].key, settings[0].value.value);
        RenderHasNoCr(settings[0].key, settings[0].value.value);
        CrsOfLines([line], Missing(settings[1..], handled));
        CrsNext([], line);
        assert [] + [line] == [line];
      }
    }
  }

  lemma RewritingAddsNoCr(values: seq<Setting>, lines: seq<string>)
    requires Sane(values)
    ensures CrsOf(UpdatedLines(values, lines)) <= CrsOf(lines)
  {
    var update := Updater(values);
    forall line ensures Crs(update(line)) <= Crs(line) { UpdatingAddsNoCr(values, line); }
    KeepingAddsNoCr(update, lines);
    MissingHasNoCr(values, Handled(values, lines));
    CrsOfLines(Kept(update, lines), Missing(values, Handled(values, lines)));
  }

  lemma CrsOfUpdated(values: seq<Setting>, contents: string)
    requires Sane(values)
    ensures Crs(Updated(values, contents)) == CrsOf(UpdatedLines(values, OldLines(contents)))
  {
    var lines := UpdatedLines(values, OldLines(contents));
    UpdatedText(values, contents);
    CrsOfText(lines);
    NoCrs("\n");
  }

  lemma CrIsLost(values: seq<Setting>, contents: string)
    requires Sane(values)
    requires exists i | 0 <= i < |UpdatedLines(values, OldLines(contents))| :: EndsInCr(UpdatedLines(values, OldLines(contents))[i])
    ensures Crs(Updated(values, Updated(values, contents))) < Crs(Updated(values, contents))
  {
    var once := Updated(values, contents);
    var next := UpdatedLines(values, OldLines(contents));
    UpdatedText(values, contents);
    CrsOfUpdated(values, contents);
    CrsOfUpdated(values, once);
    RewritingAddsNoCr(values, OldLines(once));
    DroppingLoses(next);
    assert next != [] && once != "";
    CrsOfLines(DropCrs(next), [""]);
    assert CrsOf([""]) == 0;
  }

  lemma CrLineIsUntaken(values: seq<Setting>, line: string)
    ensures EndsInCr(line) ==> UpdateLine(values, line) == line
  {
    if MatchKey(line).Some? {
      var sep := Find(line, '=');
      FindIs(line, '=');
      assert sep < |line| - 1 ==> !LineEnd(line[|line| - 1]);
    }
  }

  /** A line that ends in a carriage return is kept as it is, and no other kept line ends in one. */
  lemma CrLines(values: seq<Setting>, lines: seq<string>)
    requires Sane(values)
    ensures (exists i | 0 <= i < |lines| :: EndsInCr(lines[i]))
            <==> exists line :: line in UpdatedLines(values, lines) && EndsInCr(line)
  {
    var next := UpdatedLines(values, lines);
    if i :| 0 <= i < |lines| && EndsInCr(lines[i]) {
      CrLineIsUntaken(values, lines[i]);
      KeptCoverage(Updater(values), lines, i);
      assert lines[i] in next;
    }
    if line :| line in next && EndsInCr(line) {
      assert Crs(line) > 0;
      FromOldLine(values, lines, line);
    }
  }

  lemma {:induction false} InKept(update: string -> string, lines: seq<string>, line: string)
    requires line in Kept(update, lines)
    ensures exists i | 0 <= i < |lines| :: update(lines[i]) == line
    decreases |lines|
  {
    var front, last := lines[..|lines| - 1], lines[|lines| - 1];
    if line in Kept(update, front) {
      InKept(update, front, line);
      var i :| 0 <= i < |front| && update(front[i]) == line;
      assert update(lines[i]) == line;
    } else {
      assert update(last) == line;
    }
  }

  lemma {:induction false} InLines(lines: seq<string>, line: string)
    requires line in lines
    ensures Crs(line) <= CrsOf(lines)
    decreases |lines|
  {
    if line in lines[..|lines| - 1] { InLines(lines[..|lines| - 1], line); }
  }

  /** A line with a carriage return at its end comes from the old file, unchanged. */
  lemma FromOldLine(values: seq<Setting>, lines: seq<string>, line: string)
    requires Sane(values) && line in UpdatedLines(values, lines) && Crs(line) > 0
    ensures exists i | 0 <= i < |lines| :: lines[i] == line
  {
    MissingHasNoCr(values, Handled(values, lines));
    if line in Missing(values, Handled(values, lines)) {
      InLines(Missing(values, Handled(values, lines)), line);
    } else {
      InKept(Updater(values), lines, line);
      var i :| 0 <= i < |lines| && Updater(values)(lines[i]) == line;
      if Takes(values, lines[i]).Some? {
        NewValueIsSane(values, Takes(values, lines[i]).value);
        RenderHasNoCr(Takes(values, lines[i]).value, NewValue(values, Takes(values, lines[i]).value).value);
      }
    }
  }

  /** Rewriting twice is rewriting once exactly when no line of the file ends in a carriage return. */
  lemma RewritingTwiceExactly(values: seq<Setting>, contents: string)
    requires Sane(values)
    ensures Updated(values, Updated(values, contents)) == Updated(values, contents)
            <==> forall i | 0 <= i < |OldLines(contents)| :: !EndsInCr(OldLines(contents)[i])
  {
    var lines := OldLines(contents);
    var next := UpdatedLines(values, lines);
    CrLines(values, lines);
    if forall i | 0 <= i < |lines| :: !EndsInCr(lines[i]) {
      SettledLinesStay(values, contents);
    } else {
      CrIsLost(values, contents);
    }
  }
}

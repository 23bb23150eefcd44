/**
 * What parsing a rewritten env file gives, for every file and every new value, line ends included:
 * exactly when a value is read back, and exactly when no other key changes.
 */
module EnvReadBack {
  import opened Wrappers
  import opened Strings
  import opened EnvFile
  import opened EnvRoundTrip

  // ---------------------------------------------------------------- reading a text of several lines

  /** The value that a text with line ends gives: that of its last line that has one. */
  function TextValue(value: string -> Option<string>, text: string): Option<string> {
    Last(value, SplitLines(text))
  }

  function Texts(value: string -> Option<string>): string -> Option<string> {
    text => TextValue(value, text)
  }

  /** Lines are read alike with and without a carriage return at their end, and an empty one has no value. */
  ghost predicate Lenient(value: string -> Option<string>) {
    value("") == None && forall line :: value(DropCr(line)) == value(line)
  }

  lemma ReaderIsLenient(t: CharTables, key: string)
    requires EnvTables(t)
    ensures Lenient(Reader(t, key))
  {
    EmptyLineIsSkipped(t);
    forall line ensures Reader(t, key)(DropCr(line)) == Reader(t, key)(line) { CrIsIgnored(t, line); }
  }

  lemma LineIsText(value: string -> Option<string>, line: string)
    requires '\n' !in line
    ensures SplitLines(line) == [line] && TextValue(value, line) == value(line)
  {
    FindIs(line, '\n');
    LastNext(value, [], line);
    assert [] + [line] == [line];
  }

  /** The text up to the first line feed, and behind it. */
  function UpTo(s: string): string {
    s[..Find(s, '\n')]
  }

  function After(s: string): string {
    var i := Find(s, '\n');
    if i < |s| then s[i + 1..] else ""
  }

  lemma FirstFeed(line: string, rest: string)
    requires '\n' !in line
    ensures var s := line + "\n" + rest; UpTo(s) == line && After(s) == rest
  {
    var s := line + "\n" + rest;
    assert s[|line|] == '\n' && s[..|line|] == line && s[|line| + 1..] == rest;
    assert forall k | 0 <= k < |line| :: s[k] == line[k];
    FindFirst(s, '\n', |line|);
  }

  lemma Divided(s: string)
    ensures '\n' !in UpTo(s) && s == if '\n' in s then UpTo(s) + "\n" + After(s) else UpTo(s)
    ensures '\n' !in s ==> After(s) == ""
    ensures '\n' in s ==> |After(s)| < |s|
  {
    FindIs(s, '\n');
  }

  /** The lines behind the first have precedence over it. */
  lemma TextReads(value: string -> Option<string>, text: string)
    requires Lenient(value)
    ensures TextValue(value, text) == if TextValue(value, After(text)).Some? then TextValue(value, After(text)) else value(UpTo(text))
  {
    var line, rest := UpTo(text), After(text);
    Divided(text);
    LineIsText(value, "");
    if '\n' in text {
      SplitOne(line, rest);
      LastOfConcat(value, [DropCr(line)], SplitLines(rest));
      LastNext(value, [], DropCr(line));
      assert [] + [DropCr(line)] == [DropCr(line)];
    } else {
      LineIsText(value, text);
    }
  }

  lemma ConcatDivides(a: string, b: string)
    ensures var s := a + "\n" + b; UpTo(s) == UpTo(a) && After(s) == if '\n' in a then After(a) + "\n" + b else b
  {
    Divided(a);
    if '\n' in a {
      assert a + "\n" + b == UpTo(a) + "\n" + (After(a) + "\n" + b);
      FirstFeed(UpTo(a), After(a) + "\n" + b);
    } else {
      FirstFeed(a, b);
    }
  }

  /** Of two texts one after the other, the second has precedence. */
  lemma {:induction false} TextConcat(value: string -> Option<string>, a: string, b: string)
    requires Lenient(value)
    ensures TextValue(value, a + "\n" + b) == if TextValue(value, b).Some? then TextValue(value, b) else TextValue(value, a)
    decreases |a|
  {
    Divided(a);
    ConcatDivides(a, b);
    TextReads(value, a);
    TextReads(value, a + "\n" + b);
    if '\n' in a {
      TextConcat(value, After(a), b);
    } else {
      LineIsText(value, "");
    }
  }

  lemma {:induction false} JoinedReads(value: string -> Option<string>, lines: seq<string>)
    requires Lenient(value)
    ensures TextValue(value, Join(lines)) == Last(Texts(value), lines)
  {
    LineIsText(value, "");
    if |lines| > 0 {
      JoinedReads(value, lines[1..]);
      LastOfConcat(Texts(value), [lines[0]], lines[1..]);
      LastNext(Texts(value), [], lines[0]);
      assert [] + [lines[0]] == [lines[0]] && [lines[0]] + lines[1..] == lines;
      TextConcat(value, lines[0], Join(lines[1..]));
    }
  }

  function TextReader(t: CharTables, key: string): string -> Option<string> {
    Texts(Reader(t, key))
  }

  /** A line feed at the end of a text does not matter to the parser. */
  lemma ParsedLines(t: CharTables, lines: seq<string>, key: string)
    requires EnvTables(t)
    ensures Parsed(t, EndLine(Join(lines)), key) == Last(TextReader(t, key), lines)
  {
    var value := Reader(t, key);
    ReaderIsLenient(t, key);
    JoinedReads(value, lines);
    LineIsText(value, "");
    TextConcat(value, Join(lines), "");
    assert Join(lines) + "\n" + "" == Join(lines) + "\n";
  }

  // ---------------------------------------------------------------- one rendered value

  predicate Assigned(t: CharTables, lines: seq<string>, key: string) {
    exists line :: line in lines && ValueAt(t, line, key).Some?
  }

  lemma AssignedIsRead(t: CharTables, lines: seq<string>, key: string)
    ensures Assigned(t, lines, key) <==> Last(Reader(t, key), lines).Some?
  {
    LastIsSome(Reader(t, key), lines);
    assert forall line :: Reader(t, key)(line) == ValueAt(t, line, key);
  }

  /** A line behind the first line of the value assigns the key. */
  predicate Spills(t: CharTables, v: string, key: string) {
    Assigned(t, SplitLines(After(v)), key)
  }

  lemma {:induction false} LastIsSome(value: string -> Option<string>, lines: seq<string>)
    ensures Last(value, lines).Some? <==> exists line :: line in lines && value(line).Some?
    ensures Last(value, lines).Some? ==> exists line :: line in lines && value(line) == Last(value, lines)
    decreases |lines|
  {
    if |lines| > 0 {
      LastIsSome(value, lines[..|lines| - 1]);
    }
  }

  /** The first line of a rendered value assigns its key; the lines behind it say what they say. */
  lemma RenderReads(t: CharTables, own: string, v: string, key: string)
    requires EnvTables(t) && EnvKey(own)
    ensures var read := TextReader(t, key);
            read(Render(own, v)) == if read(After(v)).Some? then read(After(v))
                                    else if key == own then Some(Clean(t, UpTo(v))) else None
  {
    ReaderIsLenient(t, key);
    TextReads(Reader(t, key), Render(own, v));
    RenderSplits(own, v);
    RenderParses(t, own, UpTo(v));
  }

  lemma RenderSplits(own: string, v: string)
    requires EnvKey(own)
    ensures UpTo(Render(own, v)) == Render(own, UpTo(v)) && After(Render(own, v)) == After(v)
  {
    Divided(v);
    NoFeedInRender(own, UpTo(v));
    if '\n' in v {
      assert Render(own, v) == Render(own, UpTo(v)) + "\n" + After(v);
      FirstFeed(Render(own, UpTo(v)), After(v));
    } else {
      Divided(Render(own, v));
    }
  }

  lemma NoFeedInRender(key: string, v: string)
    requires EnvKey(key) && '\n' !in v
    ensures '\n' !in Render(key, v)
  {
    assert forall i | 0 <= i < |key| :: KeyChar(key[i]);
  }

  /** What is read back for a value: its first line, unless a later one assigns the key again. */
  function ReadBack(t: CharTables, key: string, v: string): string {
    TextReader(t, key)(Render(key, v)).GetOr("")
  }

  // ---------------------------------------------------------------- which line ends break the read-back

  lemma {:induction false} TrimBlankFront(a: string, b: string, drop: char -> bool)
    requires forall i | 0 <= i < |a| :: drop(a[i])
    ensures TrimLeft(a + b, drop) == TrimLeft(b, drop)
  {
    if |a| > 0 {
      assert (a + b)[1..] == a[1..] + b;
      TrimBlankFront(a[1..], b, drop);
    } else {
      assert a + b == b;
    }
  }

  lemma {:induction false} TrimBlankEnd(a: string, b: string, drop: char -> bool)
    requires forall i | 0 <= i < |b| :: drop(b[i])
    ensures TrimRight(a + b, drop) == TrimRight(a, drop) && Trim(a + b, drop) == Trim(a, drop)
    decreases |b|
  {
    if |b| > 0 {
      var front := b[..|b| - 1];
      TrimBlankEnd(a, front, drop);
      assert a + b == a + front + [b[|b| - 1]] && (a + b)[..|a + b| - 1] == a + front;
      TrimSnoc(a + front, b[|b| - 1], drop);
    } else {
      assert a + b == a;
    }
  }

  predicate Blank(s: string, space: char -> bool) {
    forall i | 0 <= i < |s| :: space(s[i])
  }

  /** A line feed that is not inside the trimmed text has only white space before or behind it. */
  lemma FeedOutside(a: string, b: string, space: char -> bool)
    requires space('\n')
    ensures var v := a + "\n" + b;
            && (Blank(a, space) ==> Trim(v, space) == Trim(b, space))
            && (Blank(b, space) ==> Trim(v, space) == Trim(a, space) && TrimRight(v, space) == TrimRight(a, space))
            && (!Blank(b, space) ==> '\n' in TrimRight(v, space))
            && (!Blank(a, space) && !Blank(b, space) ==> '\n' in Trim(v, space))
  {
    var v := a + "\n" + b;
    if Blank(a, space) {
      TrimBlankFront(a + "\n", b, space);
    }
    if Blank(b, space) {
      assert v == a + ("\n" + b);
      TrimBlankEnd(a, "\n" + b, space);
    } else {
      var k :| 0 <= k < |b| && !space(b[k]);
      KeepsUpTo(v, |a| + 1 + k, space);
      assert TrimRight(v, space)[|a|] == '\n';
      if !Blank(a, space) {
        var j :| 0 <= j < |a| && !space(a[j]);
        FeedInside(v, j, |a|, |a| + 1 + k, space);
      }
    }
  }

  /** Trimming the end keeps everything up to a character to keep. */
  lemma {:induction false} KeepsUpTo(s: string, k: nat, drop: char -> bool)
    requires k < |s| && !drop(s[k])
    ensures var r := TrimRight(s, drop); k < |r| <= |s| && r == s[..|r|]
    decreases |s|
  {
    if drop(s[|s| - 1]) {
      KeepsUpTo(s[..|s| - 1], k, drop);
    }
  }

  lemma {:induction false} FeedInside(s: string, j: nat, i: nat, k: nat, drop: char -> bool)
    requires j < i < k < |s| && !drop(s[j]) && s[i] == '\n' && !drop(s[k])
    ensures '\n' in Trim(s, drop)
    decreases |s|
  {
    if drop(s[0]) {
      FeedInside(s[1..], j - 1, i - 1, k - 1, drop);
    } else {
      KeepsUpTo(s, k, drop);
      assert TrimRight(s, drop)[i] == '\n';
    }
  }

  lemma TrimOfBlank(s: string, space: char -> bool)
    requires Blank(s, space)
    ensures Trim(s, space) == ""
  {
    TrimBlankEnd("", s, space);
    assert "" + s == s;
  }

  /** The parser reads a text with line ends outside its trimmed part as one line. */
  lemma {:induction false} OneLineRead(t: CharTables, text: string, key: string)
    requires EnvTables(t) && '\n' !in Trim(text, t.isSpace)
    ensures TextReader(t, key)(text) == ValueAt(t, text, key)
    decreases |text|
  {
    var a, b, value := UpTo(text), After(text), Reader(t, key);
    Divided(text);
    ReaderIsLenient(t, key);
    TextReads(value, text);
    LineIsText(value, "");
    if '\n' in text {
      FeedOutside(a, b, t.isSpace);
      if Blank(a, t.isSpace) { TrimOfBlank(a, t.isSpace); } else { TrimOfBlank(b, t.isSpace); }
      OneLineRead(t, b, key);
    }
  }

  lemma CleanCuts(t: CharTables, v: string)
    ensures |Clean(t, v)| <= |Trim(v, t.isSpace)| <= |v|
    ensures forall c | c in Clean(t, v) :: c in Trim(v, t.isSpace)
    ensures forall c | c in Trim(v, t.isSpace) :: c in v
  {
    var lo, hi := TrimCuts(v, t.isSpace);
  }

  /** What the parser reads has no line feed. */
  lemma ValueIsFeedless(t: CharTables, line: string, key: string)
    requires '\n' !in line && ValueAt(t, line, key).Some?
    ensures '\n' !in ValueAt(t, line, key).value
  {
    var trimmed := Trim(line, t.isSpace);
    CleanCuts(t, line);
    CleanCuts(t, trimmed[Find(trimmed, '=') + 1..]);
  }

  lemma TextIsFeedless(t: CharTables, text: string, key: string)
    ensures var read := TextReader(t, key)(text); read.Some? ==> '\n' !in read.value
  {
    var lines := SplitLines(text);
    SplitIsFeedless(text);
    LastIsSome(Reader(t, key), lines);
    if TextReader(t, key)(text).Some? {
      var line :| line in lines && ValueAt(t, line, key) == TextReader(t, key)(text);
      ValueIsFeedless(t, line, key);
    }
  }

  lemma TrailingFeedsAreTrimmed(t: CharTables, key: string, v: string)
    requires EnvTables(t) && EnvKey(key) && '\n' !in TrimRight(v, t.isSpace)
    ensures ReadBack(t, key, v) == Clean(t, v)
  {
    var line, head := Render(key, v), key + "=";
    assert line == head + v && line[0] == key[0] && KeyChar(key[0]);
    TrimRightConcat(head, v, t.isSpace);
    NoFeedInRender(key, TrimRight(v, t.isSpace));
    OneLineRead(t, line, key);
    RenderParses(t, key, v);
  }

  /** A value with a line feed inside its trimmed text is cut at it, or replaced by what comes later. */
  lemma InteriorFeedBreaks(t: CharTables, key: string, v: string)
    requires EnvTables(t) && EnvKey(key) && '\n' in Trim(v, t.isSpace)
    ensures ReadBack(t, key, v) != Clean(t, v) && Clean(t, v) != ""
  {
    var inner := Trim(v, t.isSpace);
    var lo, hi := TrimCuts(v, t.isSpace);
    var i :| 0 <= i < |inner| && inner[i] == '\n';
    assert 0 < i < |inner| - 1 && LineEnd(inner[i]);
    assert Clean(t, v) == inner;
    RenderReads(t, key, v, key);
    TextIsFeedless(t, Render(key, v), key);
  }

  /** An assignment is unquoted, so cleaning leaves it longer than the value it assigns. */
  lemma AssignmentIsLonger(t: CharTables, text: string, key: string)
    requires EnvTables(t) && EnvKey(key) && ValueAt(t, text, key).Some?
    ensures |ValueAt(t, text, key).value| < |Clean(t, text)|
  {
    var line := Trim(text, t.isSpace);
    var sep := Find(line, '=');
    var lo, hi := TrimCuts(text, t.isSpace);
    FindIs(line, '=');
    CleanCuts(t, line[sep + 1..]);
    TrimRightKeepsStart(line[..sep], t.isSpace);
    assert !t.isSpace(line[0]) && KeyChar(line[0]);
  }

  lemma LeadingFeed(t: CharTables, v: string)
    requires EnvTables(t) && '\n' !in Trim(v, t.isSpace) && '\n' in TrimRight(v, t.isSpace)
    ensures Clean(t, UpTo(v)) == "" && Clean(t, After(v)) == Clean(t, v) && '\n' !in Trim(After(v), t.isSpace)
  {
    var a, b := UpTo(v), After(v);
    Divided(v);
    TrimRightKeepsStart(v, t.isSpace);
    FeedOutside(a, b, t.isSpace);
    TrimRightKeepsStart(a, t.isSpace);
    TrimOfBlank(a, t.isSpace);
  }

  /** Behind line feeds at its start a value is lost. */
  lemma LeadingFeedBreaks(t: CharTables, key: string, v: string)
    requires EnvTables(t) && EnvKey(key) && '\n' !in Trim(v, t.isSpace) && '\n' in TrimRight(v, t.isSpace)
    ensures ReadBack(t, key, v) == Clean(t, v) <==> Clean(t, v) == ""
  {
    LeadingFeed(t, v);
    RenderReads(t, key, v, key);
    OneLineRead(t, After(v), key);
    var later := ValueAt(t, After(v), key);
    assert ReadBack(t, key, v) == later.GetOr("");
    if later.Some? {
      AssignmentIsLonger(t, After(v), key);
    }
  }

  /**
   * Exactly which line ends break the read-back of a value: not those at its end, which are trimmed,
   * but all others, unless the value is empty anyway.
   */
  lemma ReadsCleanExactly(t: CharTables, key: string, v: string)
    requires EnvTables(t) && EnvKey(key)
    ensures ReadBack(t, key, v) == Clean(t, v) <==> '\n' !in TrimRight(v, t.isSpace) || Clean(t, v) == ""
    ensures ReadBack(t, key, v) == v <==> '\n' !in v && Clean(t, v) == v
  {
    TrimRightKeepsStart(v, t.isSpace);
    if '\n' !in TrimRight(v, t.isSpace) {
      TrailingFeedsAreTrimmed(t, key, v);
    } else if '\n' !in Trim(v, t.isSpace) {
      LeadingFeedBreaks(t, key, v);
    } else {
      InteriorFeedBreaks(t, key, v);
    }
    RenderReads(t, key, v, key);
    TextIsFeedless(t, Render(key, v), key);
  }

  // ---------------------------------------------------------------- one key of a file

  /** No other key's new value has a line, behind its first, that assigns this key. */
  ghost predicate Quiet(t: CharTables, values: seq<Setting>, key: string) {
    forall i | 0 <= i < |values| && values[i].key != key && values[i].value.Some? :: !Spills(t, values[i].value.value, key)
  }

  /** The new value of a key, as the parser will read it. */
  function Given(t: CharTables, values: seq<Setting>, key: string): Option<string> {
    if NewValue(values, key).Some? then Some(ReadBack(t, key, NewValue(values, key).value)) else None
  }

  lemma {:induction false} NewValueIsSet(values: seq<Setting>, key: string)
    requires NewValue(values, key).Some?
    ensures exists i | 0 <= i < |values| :: values[i] == Setting(key, NewValue(values, key))
  {
    if values[0].key != key {
      NewValueIsSet(values[1..], key);
      var i :| 0 <= i < |values[1..]| && values[1..][i] == Setting(key, NewValue(values, key));
      assert values[i + 1] == values[1..][i];
    }
  }

  lemma MatchedIsFeedless(line: string)
    requires MatchKey(line).Some?
    ensures '\n' !in line
  {
    MatchedIsRendered(line);
    RenderIsClean(MatchKey(line).value, line[Find(line, '=') + 1..]);
  }

  lemma LineUpdatesKey(t: CharTables, values: seq<Setting>, line: string, key: string)
    requires EnvTables(t) && Quiet(t, values, key)
    ensures UpdatesLine(TextReader(t, key), Hits(key), Updater(values), Given(t, values, key), line)
  {
    if MatchKey(line).Some? {
      var own := MatchKey(line).value;
      MatchedAssigns(t, line);
      MatchedIsRendered(line);
      MatchedIsFeedless(line);
      LineIsText(Reader(t, key), line);
      if NewValue(values, own).Some? {
        NewValueIsSet(values, own);
        AssignedIsRead(t, SplitLines(After(NewValue(values, own).value)), key);
        RenderReads(t, own, NewValue(values, own).value, key);
      }
    }
  }

  lemma RewritingUpdatesKey(t: CharTables, values: seq<Setting>, key: string)
    requires EnvTables(t) && Quiet(t, values, key)
    ensures UpdatesKey(TextReader(t, key), Hits(key), Updater(values), Given(t, values, key))
  {
    EmptyLineIsSkipped(t);
    LineIsText(Reader(t, key), "");
    forall line ensures UpdatesLine(TextReader(t, key), Hits(key), Updater(values), Given(t, values, key), line) {
      LineUpdatesKey(t, values, line, key);
    }
  }

  lemma NewLineReads(t: CharTables, own: string, v: string, key: string)
    requires EnvTables(t) && EnvKey(own) && (own != key ==> !Spills(t, v, key))
    ensures Last(TextReader(t, key), [Render(own, v)]) == if own == key then Some(ReadBack(t, key, v)) else None
  {
    AssignedIsRead(t, SplitLines(After(v)), key);
    RenderReads(t, own, v, key);
    LastNext(TextReader(t, key), [], Render(own, v));
    assert [] + [Render(own, v)] == [Render(own, v)];
  }

  lemma {:induction false} MissingValue(t: CharTables, settings: seq<Setting>, handled: set<string>, key: string)
    requires EnvTables(t) && Keyed(settings) && Quiet(t, settings, key)
    ensures Last(TextReader(t, key), Missing(settings, handled)) == if key in handled then None else Given(t, settings, key)
  {
    if |settings| > 0 {
      var own, value, rest := settings[0].key, settings[0].value, Missing(settings[1..], handled);
      MissingValue(t, settings[1..], handled, key);
      if value.Some? && own !in handled {
        NewLineReads(t, own, value.value, key);
        LastOfConcat(TextReader(t, key), [Render(own, value.value)], rest);
      } else {
        assert [] + rest == rest;
      }
      if own == key { AbsentHasNoValue(settings[1..], key); }
    }
  }

  // ---------------------------------------------------------------- the round trip

  /** On lines of a file, reading texts is reading lines. */
  lemma {:induction false} LinesAreTexts(t: CharTables, lines: seq<string>, key: string)
    requires Feedless(lines)
    ensures Last(TextReader(t, key), lines) == Last(Reader(t, key), lines)
    decreases |lines|
  {
    if |lines| > 0 {
      LinesAreTexts(t, lines[..|lines| - 1], key);
      LineIsText(Reader(t, key), lines[|lines| - 1]);
    }
  }

  lemma ShadowedTexts(t: CharTables, lines: seq<string>, key: string)
    requires Feedless(lines)
    ensures LastMissed(TextReader(t, key), Hits(key), lines) <==> Shadowed(t, lines, key)
  {
    forall j | 0 <= j < |lines| ensures TextReader(t, key)(lines[j]) == Reader(t, key)(lines[j]) {
      LineIsText(Reader(t, key), lines[j]);
    }
    forall j | 0 <= j < |lines|
      ensures LastMissedAt(TextReader(t, key), Hits(key), lines, j) <==> LastMissedAt(Reader(t, key), Hits(key), lines, j)
    {
    }
  }

  /**
   * What a rewriting is for: a new value is in force afterwards, read back as `ReadBack` says, unless
   * the key is shadowed; every other key, and a shadowed one, keeps its value.
   */
  function Expected(t: CharTables, values: seq<Setting>, contents: string, key: string): Option<string> {
    if NewValue(values, key).Some? && !Shadowed(t, OldLines(contents), key)
    then Some(ReadBack(t, key, NewValue(values, key).value))
    else Parsed(t, contents, key)
  }

  /** So it is for every key that no other new value spills into, whatever the file and the values. */
  lemma RewrittenValue(t: CharTables, values: seq<Setting>, contents: string, key: string)
    requires EnvTables(t) && Keyed(values) && Quiet(t, values, key)
    ensures Parsed(t, Updated(values, contents), key) == Expected(t, values, contents, key)
  {
    var before, read := OldLines(contents), TextReader(t, key);
    SplitIsFeedless(contents);
    ParsedLines(t, UpdatedLines(values, before), key);
    ParsedOldLines(t, contents, key);
    LinesAreTexts(t, before, key);
    ShadowedTexts(t, before, key);
    LastOfConcat(read, Kept(Updater(values), before), Missing(values, Handled(values, before)));
    RewritingUpdatesKey(t, values, key);
    KeptValue(read, Hits(key), Updater(values), Given(t, values, key), before);
    MissingValue(t, values, Handled(values, before), key);
    HandledAreHit(values, before, key);
    NoneMissed(read, Hits(key), before);
  }

  lemma {:induction false} SpillIsRead(t: CharTables, settings: seq<Setting>, handled: set<string>, i: nat, key: string)
    requires EnvTables(t) && Keyed(settings) && i < |settings| && settings[i].key !in handled
    requires settings[i].value.Some? && Spills(t, settings[i].value.value, key)
    ensures Last(TextReader(t, key), Missing(settings, handled)).Some?
  {
    var rest, read := Missing(settings[1..], handled), TextReader(t, key);
    var head := if settings[0].value.Some? && settings[0].key !in handled then [Render(settings[0].key, settings[0].value.value)] else [];
    LastOfConcat(read, head, rest);
    if i > 0 {
      SpillIsRead(t, settings[1..], handled, i - 1, key);
    } else {
      AssignedIsRead(t, SplitLines(After(settings[0].value.value)), key);
      RenderReads(t, settings[0].key, settings[0].value.value, key);
      LastNext(read, [], head[0]);
      assert [] + [head[0]] == head;
    }
  }

  /** A file with an assignment that the rewriter sees and one behind it that it does not see. */
  function ShadowFile(key: string, b: string): string {
    Render(key, "") + "\n" + (" " + Render(key, b))
  }

  lemma ShadowFileLines(key: string, b: string)
    requires EnvKey(key) && SingleLine(b)
    ensures OldLines(ShadowFile(key, b)) == [Render(key, ""), " " + Render(key, b)]
    ensures '\n' !in " " + Render(key, b)
  {
    var first, second := Render(key, ""), " " + Render(key, b);
    RenderIsClean(key, "");
    RenderIsClean(key, b);
    SplitOne(first, second);
    FindIs(second, '\n');
    assert SplitLines(second) == [second] && DropCr(first) == first;
  }

  lemma ShadowFileReads(t: CharTables, key: string, b: string)
    requires EnvTables(t) && t.isSpace(' ') && EnvKey(key) && SingleLine(b)
    ensures var lines := OldLines(ShadowFile(key, b));
            && |lines| == 2 && Hits(key)(lines[0]) && MatchKey(lines[1]) == None && Shadowed(t, lines, key)
            && Parsed(t, ShadowFile(key, b), key) == Some(Clean(t, b))
  {
    ShadowFileLines(key, b);
    RenderMatches(key, "");
    IndentedIsUnmatched(" " + Render(key, b));
    IndentedLineShadows(t, key, "", b);
    ParsedOldLines(t, ShadowFile(key, b), key);
  }

  lemma PlainLetter(t: CharTables, c: char)
    requires EnvTables(t) && 'A' <= c <= 'Z'
    ensures Clean(t, [c]) == [c] && SingleLine([c])
  {
    assert KeyChar(c) && !t.isSpace([c][0]);
  }

  lemma OneHandled(values: seq<Setting>, lines: seq<string>, key: string)
    requires |lines| == 2 && Hits(key)(lines[0]) && MatchKey(lines[1]) == None && NewValue(values, key).Some?
    ensures Handled(values, lines) == {key}
  {
    HandledNext(values, [], lines[0]);
    HandledNext(values, [lines[0]], lines[1]);
    assert [] + [lines[0]] == [lines[0]] && [lines[0]] + [lines[1]] == lines;
    assert Handled(values, []) == {};
  }

  /** Setting a shadowed key keeps its value, but another key's lines would go behind it. */
  lemma SpilledFile(t: CharTables, values: seq<Setting>, key: string, i: nat, b: string)
    requires EnvTables(t) && t.isSpace(' ') && Keyed(values) && EnvKey(key) && NewValue(values, key).Some? && SingleLine(b)
    requires i < |values| && values[i].key != key && values[i].value.Some? && Spills(t, values[i].value.value, key)
    ensures var missing := Last(TextReader(t, key), Missing(values, {key}));
            missing.Some? && Parsed(t, Updated(values, ShadowFile(key, b)), key) == missing
    ensures Expected(t, values, ShadowFile(key, b), key) == Some(Clean(t, b))
  {
    var lines := OldLines(ShadowFile(key, b));
    ShadowFileReads(t, key, b);
    OneHandled(values, lines, key);
    SpillIsRead(t, values, {key}, i, key);
    ParsedLines(t, UpdatedLines(values, lines), key);
    LastOfConcat(TextReader(t, key), Kept(Updater(values), lines), Missing(values, {key}));
  }

  lemma NewFile(values: seq<Setting>)
    ensures UpdatedLines(values, []) == Missing(values, {})
  {
    assert Handled(values, []) == {} && Kept(Updater(values), []) == [];
    assert [] + Missing(values, {}) == Missing(values, {});
  }

  lemma SpilledIntoUnset(t: CharTables, values: seq<Setting>, key: string, i: nat)
    requires EnvTables(t) && Keyed(values) && NewValue(values, key) == None
    requires i < |values| && values[i].key != key && values[i].value.Some? && Spills(t, values[i].value.value, key)
    ensures Parsed(t, Updated(values, ""), key) != Expected(t, values, "", key)
  {
    SpillIsRead(t, values, {}, i, key);
    ParsedLines(t, UpdatedLines(values, []), key);
    ParsedOldLines(t, "", key);
    NewFile(values);
  }

  /** A key fares as expected in every file exactly when no other new value spills into it. */
  lemma RewritesExactly(t: CharTables, values: seq<Setting>, key: string)
    requires EnvTables(t) && t.isSpace(' ') && Keyed(values)
    ensures Quiet(t, values, key) <==> forall contents :: Parsed(t, Updated(values, contents), key) == Expected(t, values, contents, key)
  {
    if Quiet(t, values, key) {
      forall contents ensures Parsed(t, Updated(values, contents), key) == Expected(t, values, contents, key) {
        RewrittenValue(t, values, contents, key);
      }
    } else {
      var i :| 0 <= i < |values| && values[i].key != key && values[i].value.Some? && Spills(t, values[i].value.value, key);
      if NewValue(values, key).Some? {
        NewValueIsSet(values, key);
        PlainLetter(t, 'A');
        PlainLetter(t, 'B');
        SpilledFile(t, values, key, i, "A");
        SpilledFile(t, values, key, i, "B");
      } else {
        SpilledIntoUnset(t, values, key, i);
      }
    }
  }

  /** When a new value is read back as it was given: exactly this, for every file and value. */
  lemma ReadBackExactly(t: CharTables, values: seq<Setting>, contents: string, key: string)
    requires EnvTables(t) && Keyed(values) && Quiet(t, values, key) && NewValue(values, key).Some?
    ensures var v := NewValue(values, key).value;
            Parsed(t, Updated(values, contents), key) == Some(v)
            <==> if Shadowed(t, OldLines(contents), key) then Parsed(t, contents, key) == Some(v) else '\n' !in v && Clean(t, v) == v
    ensures Plain(t, OldLines(contents), key) ==> !Shadowed(t, OldLines(contents), key)
  {
    NewValueIsSet(values, key);
    RewrittenValue(t, values, contents, key);
    ReadsCleanExactly(t, key, NewValue(values, key).value);
    PlainIsNotShadowed(t, OldLines(contents), key);
  }

  /** Single-line values spill into no key, and are read back cleaned. */
  lemma SingleLinesAreQuiet(t: CharTables, values: seq<Setting>, key: string)
    requires Sane(values)
    ensures Quiet(t, values, key)
  {
    forall i | 0 <= i < |values| && values[i].value.Some? ensures !Spills(t, values[i].value.value, key) {
      LineIsText(Reader(t, key), "");
      Divided(values[i].value.value);
      EmptyLineIsSkipped(t);
    }
  }

  // ---------------------------------------------------------------- files the rewriter does not see through

  /** Every line the parser reads for `key` is an unindented one the rewriter replaces. */
  predicate Plain(t: CharTables, lines: seq<string>, key: string) {
    forall i | 0 <= i < |lines| :: ValueAt(t, lines[i], key).Some? ==> MatchKey(lines[i]) == Some(key)
  }

  lemma PlainIsNotShadowed(t: CharTables, lines: seq<string>, key: string)
    ensures Plain(t, lines, key) ==> !Shadowed(t, lines, key)
  {
    if Plain(t, lines, key) {
      forall j | 0 <= j < |lines| ensures !LastMissedAt(Reader(t, key), Hits(key), lines, j) {
        assert ValueAt(t, lines[j], key).Some? ==> MatchKey(lines[j]) == Some(key);
      }
    }
  }

  lemma IndentedIsUnmatched(line: string)
    requires |line| > 0 && line[0] == ' '
    ensures MatchKey(line) == None
  {
    var sep := Find(line, '=');
    if 0 < sep < |line| {
      assert line[..sep][0] == ' ';
    }
  }

  lemma IndentedLine(t: CharTables, key: string, v: string)
    requires EnvTables(t) && t.isSpace(' ') && EnvKey(key)
    ensures ValueAt(t, " " + Render(key, v), key) == Some(Clean(t, v)) && MatchKey(" " + Render(key, v)) == None
  {
    var line := Render(key, v);
    var indented := " " + line;
    assert indented[1..] == line && TrimLeft(indented, t.isSpace) == TrimLeft(line, t.isSpace);
    RenderParses(t, key, v);
    IndentedIsUnmatched(indented);
  }

  /** A line of the key, then an indented one: the update replaces the first, and the parser reads the second. */
  lemma IndentedLineShadows(t: CharTables, key: string, a: string, b: string)
    requires EnvTables(t) && t.isSpace(' ') && EnvKey(key) && SingleLine(a)
    ensures var lines := [Render(key, a), " " + Render(key, b)];
            Shadowed(t, lines, key) && Last(Reader(t, key), lines) == Some(Clean(t, b))
  {
    var lines := [Render(key, a), " " + Render(key, b)];
    RenderMatches(key, a);
    IndentedLine(t, key, b);
    assert Hits(key)(lines[..1][0]);
    assert LastMissedAt(Reader(t, key), Hits(key), lines, 1);
  }

  lemma OnlyNewLine(values: seq<Setting>, key: string, v: string)
    requires values == [Setting(key, Some(v))]
    ensures UpdatedLines(values, []) == [Render(key, v)]
  {
    NewFile(values);
    assert values[1..] == [] && Missing([], {}) == [];
    assert Missing(values, {}) == [Render(key, v)] + Missing(values[1..], {});
  }

  lemma OneNewLine(t: CharTables, values: seq<Setting>, key: string, v: string, other: string)
    requires EnvTables(t) && values == [Setting(key, Some(v))]
    ensures Parsed(t, Updated(values, ""), other) == TextReader(t, other)(Render(key, v)) && Parsed(t, "", other) == None
  {
    ParsedLines(t, UpdatedLines(values, []), other);
    ParsedOldLines(t, "", other);
    LastNext(TextReader(t, other), [], Render(key, v));
    OnlyNewLine(values, key, v);
    assert [] + [Render(key, v)] == [Render(key, v)];
  }

  lemma SecondLineReads(t: CharTables, key: string, v: string, other: string, w: string)
    requires EnvTables(t) && EnvKey(key) && EnvKey(other) && key != other && '\n' !in v
    ensures TextReader(t, other)(Render(key, v + "\n" + Render(other, w))) == Some(ReadBack(t, other, w))
    ensures Spills(t, v + "\n" + Render(other, w), other)
  {
    FirstFeed(v, Render(other, w));
    RenderReads(t, key, v + "\n" + Render(other, w), other);
    RenderReads(t, other, w, other);
    AssignedIsRead(t, SplitLines(Render(other, w)), other);
  }

  /** A new value whose second line assigns another key: in a file without it, that key is now set. */
  lemma MultiLineValueSetsAnother(t: CharTables, values: seq<Setting>, key: string, v: string, other: string, w: string)
    requires EnvTables(t) && EnvKey(key) && EnvKey(other) && key != other && '\n' !in v
    requires values == [Setting(key, Some(v + "\n" + Render(other, w)))]
    ensures NewValue(values, other) == None && Parsed(t, "", other) == None && !Quiet(t, values, other)
    ensures Parsed(t, Updated(values, ""), other) == Some(ReadBack(t, other, w))
    ensures '\n' !in w ==> ReadBack(t, other, w) == Clean(t, w)
  {
    OneNewLine(t, values, key, v + "\n" + Render(other, w), other);
    SecondLineReads(t, key, v, other, w);
    assert values[0].key != other;
    TrimRightKeepsStart(w, t.isSpace);
    if '\n' !in w { TrailingFeedsAreTrimmed(t, other, w); }
  }
}

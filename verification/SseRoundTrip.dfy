/** Parsing undoes printing, however the printed stream is cut. */
module SseRoundTrip {
  import opened Basics
  import opened Lines
  import opened Sse
  import opened SseLines

  // ---- Events of a cut stream ------------------------------------------------------------------

  /** The events of a text read by its standard lines. */
  function StandardParse(s: string): seq<Event> {
    var (lines, rest) := Standard(s);
    var (st, events) := HandleLines(INITIAL, lines);
    events + Flush(st.(buffer := rest)).1
  }

  lemma {:induction false} HandleLinesAppend(st: State, a: seq<string>, b: seq<string>)
    ensures var (mid, first) := HandleLines(st, a);
            HandleLines(st, a + b) == (HandleLines(mid, b).0, first + HandleLines(mid, b).1)
    decreases |a|
  {
    if |a| == 0 {
      AppendNil(b);
      AppendNil(HandleLines(st, b).1);
    } else {
      var (st1, first) := HandleLine(st, a[0]);
      AppendUncons(a, b);
      HandleLinesAppend(st1, a[1..], b);
      var (mid, more) := HandleLines(st1, a[1..]);
      Associative(first, more, HandleLines(mid, b).1);
    }
  }

  /** Handling lines neither reads nor changes the buffer. */
  lemma {:induction false} HandleLinesFrame(st: State, lines: seq<string>, buffer: string)
    ensures HandleLines(st.(buffer := buffer), lines)
         == (HandleLines(st, lines).0.(buffer := buffer), HandleLines(st, lines).1)
    decreases |lines|
  {
    if |lines| > 0 {
      HandleLinesFrame(HandleLine(st, lines[0]).0, lines[1..], buffer);
    }
  }

  /** Feeding chunks handles the lines that come out of them. */
  lemma {:induction false} FeedAllHandles(st: State, chunks: seq<string>)
    ensures var (lines, rest) := LinesOf(st.buffer, chunks);
            FeedAll(st, chunks) == (HandleLines(st, lines).0.(buffer := rest), HandleLines(st, lines).1)
    decreases |chunks|
  {
    if |chunks| > 0 {
      var (lines, rest) := Drain(st.buffer + chunks[0]);
      var (after, events) := HandleLines(st, lines);
      var st1 := after.(buffer := rest);
      FeedAllHandles(st1, chunks[1..]);
      var (more, last) := LinesOf(rest, chunks[1..]);
      HandleLinesAppend(st, lines, more);
      HandleLinesFrame(after, more, rest);
    } else {
      assert st.(buffer := st.buffer) == st;
    }
  }

  lemma ParseOfLines(chunks: seq<string>)
    requires LinesOf("", chunks) == Standard(Concat(chunks))
    ensures Parse(chunks) == StandardParse(Concat(chunks))
  {
    FeedAllHandles(INITIAL, chunks);
  }

  /** Any cut of a text whose terminators are in order gives the same events. */
  lemma OrderedParse(chunks: seq<string>)
    requires Ordered(Concat(chunks))
    ensures Parse(chunks) == StandardParse(Concat(chunks))
  {
    CutsDoNotMatter(Concat(chunks));
    ParseOfLines(chunks);
  }

  // ---- Lines of a printed event ----------------------------------------------------------------

  /** What `SplitLines` cuts, `Join` puts back together. */
  lemma {:induction false} JoinSplits(text: string)
    ensures Join(SplitLines(text)) == text
    decreases |text|
  {
    var p := Find(text, '\n', 0);
    if p.Some? {
      JoinSplits(text[p.value + 1..]);
      assert text[..p.value] + "\n" + text[p.value + 1..] == text;
      var parts := SplitLines(text);
      assert parts[0] == text[..p.value] && parts[1..] == SplitLines(text[p.value + 1..]);
    }
  }

  lemma {:induction false} SplitLinesUnterminated(text: string)
    requires '\r' !in text
    ensures forall part | part in SplitLines(text) :: Unterminated(part)
    decreases |text|
  {
    var p := Find(text, '\n', 0);
    if p.Some? {
      assert forall c | c in text[p.value + 1..] :: c in text;
      SplitLinesUnterminated(text[p.value + 1..]);
    }
  }

  lemma {:induction false} DataLinesUnterminated(parts: seq<string>)
    requires forall part | part in parts :: Unterminated(part)
    ensures forall line | line in DataLines(parts) :: Unterminated(line)
    decreases |parts|
  {
    if |parts| > 0 {
      assert forall part | part in parts[1..] :: part in parts;
      DataLinesUnterminated(parts[1..]);
      assert Unterminated("data: " + parts[0]) by {
        assert parts[0] in parts;
        assert Unterminated("data: ");
      }
    }
  }

  /** The first line of a text that begins with an unterminated line and a line feed. */
  lemma FirstLine(line: string, rest: string)
    requires Unterminated(line)
    ensures Standard(line + "\n" + rest) == ([line] + Standard(rest).0, Standard(rest).1)
  {
    var s := line + "\n" + rest;
    assert forall i | 0 <= i < |line| :: s[i] == line[i];
    assert s[|line|] == '\n';
    FirstAt(s, |line|, 0);
    assert s[..|line|] == line && s[|line| + 1..] == rest;
  }

  lemma {:induction false} FirstAt(s: string, p: nat, from: nat)
    requires from <= p < |s| && s[p] == '\n' && forall i | from <= i < p :: s[i] !in "\r\n"
    ensures FirstLineEnd(s, from) == Some(LineEnd(p, p + 1))
    decreases p - from
  {
    if from < p {
      FirstAt(s, p, from + 1);
    }
  }

  lemma {:induction false} JoinedLines(lines: seq<string>, rest: string)
    requires |lines| > 0 && forall line | line in lines :: Unterminated(line)
    ensures Standard(Join(lines) + "\n" + rest) == (lines + Standard(rest).0, Standard(rest).1)
    decreases |lines|
  {
    if |lines| == 1 {
      FirstLine(lines[0], rest);
      assert [lines[0]] == lines;
    } else {
      assert forall line | line in lines[1..] :: line in lines;
      JoinedLines(lines[1..], rest);
      var tail := Join(lines[1..]) + "\n" + rest;
      assert Join(lines) + "\n" + rest == lines[0] + "\n" + tail;
      FirstLine(lines[0], tail);
      Associative([lines[0]], lines[1..], Standard(rest).0);
      SplitsAndJoins(lines, 0);
      assert lines[0..] == lines;
    }
  }

  // ---- Events that survive the trip ------------------------------------------------------------

  /** No name, or a nonempty name on one line; data without carriage returns. */
  predicate Printable(e: Event) {
    && (e.event.Some? ==> e.event.value != "" && Unterminated(e.event.value))
    && '\r' !in e.data
  }

  lemma EventLinesUnterminated(e: Event)
    requires Printable(e)
    ensures |EventLines(e)| > 0 && forall line | line in EventLines(e) :: Unterminated(line)
  {
    SplitLinesUnterminated(e.data);
    DataLinesUnterminated(SplitLines(e.data));
    if e.event.Some? {
      assert Unterminated("event: " + e.event.value) by {
        assert Unterminated("event: ");
      }
    }
  }

  lemma EncodedLines(e: Event, rest: string)
    requires Printable(e)
    ensures Standard(Encode(e) + rest) == (EventLines(e) + [""] + Standard(rest).0, Standard(rest).1)
  {
    EventLinesUnterminated(e);
    assert Encode(e) + rest == Join(EventLines(e)) + "\n" + ("" + "\n" + rest);
    FirstLine("", rest);
    JoinedLines(EventLines(e), "" + "\n" + rest);
    Associative(EventLines(e), [""], Standard(rest).0);
  }

  lemma PrefixedLine(field: string, value: string)
    requires field == "event" || field == "data"
    ensures var line := field + ": " + value;
            line != "" && line[0] != ':' && Field(line) == field && Value(line) == value
  {
    var line := field + ": " + value;
    assert forall i | 0 <= i < |field| :: line[i] == field[i];
    assert line[|field|] == ':' && line[|field| + 1] == ' ';
    assert line[..|field|] == field && line[|field| + 2..] == value;
    FindIs(line, ':', |field|);
  }

  lemma HandleData(st: State, value: string)
    ensures HandleLine(st, "data: " + value) == (st.(data := st.data + [value]), [])
  {
    PrefixedLine("data", value);
    assert "data" + ": " + value == "data: " + value;
  }

  lemma HandleName(st: State, value: string)
    ensures HandleLine(st, "event: " + value) == (st.(event := Some(value)), [])
  {
    PrefixedLine("event", value);
    assert "event" + ": " + value == "event: " + value;
  }

  lemma HandleOne(st: State, line: string)
    ensures HandleLines(st, [line]) == HandleLine(st, line)
  {
    var none := [line][1..];
    assert |none| == 0;
    AppendNil(HandleLine(st, line).1);
  }

  lemma {:induction false} DataLinesCollect(st: State, parts: seq<string>)
    ensures HandleLines(st, DataLines(parts)) == (st.(data := st.data + parts), [])
    decreases |parts|
  {
    if |parts| == 0 {
      AppendNil(st.data);
    } else {
      HandleData(st, parts[0]);
      DataLinesCollect(st.(data := st.data + [parts[0]]), parts[1..]);
      Associative(st.data, [parts[0]], parts[1..]);
      SplitsAndJoins(parts, 0);
      AppendUncons(["data: " + parts[0]], DataLines(parts[1..]));
    }
  }

  /** From a clean state, the lines of a printable event and a blank line produce that event and a clean state. */
  lemma EventLinesHandled(e: Event, buffer: string)
    requires Printable(e)
    ensures HandleLines(State(buffer, None, []), EventLines(e) + [""]) == (State(buffer, None, []), [e])
  {
    var clean := State(buffer, None, []);
    var named := State(buffer, e.event, []);
    var parts := SplitLines(e.data);
    var full := State(buffer, e.event, parts);
    NameLineHandled(e, buffer);
    HandleLinesAppend(clean, if e.event.Some? then ["event: " + e.event.value] else [], DataLines(parts));
    DataLinesCollect(named, parts);
    AppendNil(parts);
    assert HandleLines(clean, EventLines(e)) == (full, []);
    HandleLinesAppend(clean, EventLines(e), [""]);
    JoinSplits(e.data);
    assert HandleLine(full, "") == (clean, [e]);
    HandleOne(full, "");
    AppendNil([e]);
  }

  lemma NameLineHandled(e: Event, buffer: string)
    requires Printable(e)
    ensures HandleLines(State(buffer, None, []), if e.event.Some? then ["event: " + e.event.value] else [])
         == (State(buffer, e.event, []), [])
  {
    if e.event.Some? {
      HandleName(State(buffer, None, []), e.event.value);
      HandleOne(State(buffer, None, []), "event: " + e.event.value);
    }
  }

  predicate AllPrintable(es: seq<Event>) {
    forall e | e in es :: Printable(e)
  }

  lemma {:induction false} EncodedStream(es: seq<Event>, buffer: string)
    requires AllPrintable(es)
    ensures Standard(EncodeAll(es)).1 == ""
    ensures HandleLines(State(buffer, None, []), Standard(EncodeAll(es)).0) == (State(buffer, None, []), es)
    decreases |es|
  {
    if |es| > 0 {
      EncodedStream(es[1..], buffer);
      var rest := EncodeAll(es[1..]);
      EncodedLines(es[0], rest);
      HandleLinesAppend(State(buffer, None, []), EventLines(es[0]) + [""], Standard(rest).0);
      EventLinesHandled(es[0], buffer);
      SplitsAndJoins(es, 0);
      assert es[0..] == es;
    }
  }

  lemma {:induction false} EncodedHasNoCr(es: seq<Event>)
    requires AllPrintable(es)
    ensures '\r' !in EncodeAll(es)
    decreases |es|
  {
    if |es| > 0 {
      EncodedHasNoCr(es[1..]);
      EventLinesUnterminated(es[0]);
      JoinHasNoCr(EventLines(es[0]));
    }
  }

  lemma {:induction false} JoinHasNoCr(lines: seq<string>)
    requires forall line | line in lines :: Unterminated(line)
    ensures '\r' !in Join(lines)
    decreases |lines|
  {
    if |lines| > 1 {
      assert forall line | line in lines[1..] :: line in lines;
      JoinHasNoCr(lines[1..]);
    }
    if |lines| > 0 {
      assert Unterminated(lines[0]);
    }
  }

  /** Main result: any cut of the printed form of a list of printable events parses to exactly that list. */
  lemma ParseUndoesPrint(es: seq<Event>, chunks: seq<string>)
    requires AllPrintable(es) && Concat(chunks) == EncodeAll(es)
    ensures Parse(chunks) == es
  {
    EncodedHasNoCr(es);
    LfOnlyIsOrdered(EncodeAll(es));
    OrderedParse(chunks);
    EncodedStream(es, "");
    AppendNil(es);
  }

  // ---- No other event survives -----------------------------------------------------------------

  predicate CleanEvent(e: Event) {
    (e.event.Some? ==> Unterminated(e.event.value)) && '\r' !in e.data
  }

  ghost predicate CleanState(st: State) {
    && (st.event.Some? ==> Unterminated(st.event.value))
    && forall part | part in st.data :: Unterminated(part)
  }

  lemma HandleLineClean(st: State, line: string)
    requires CleanState(st) && Unterminated(line)
    ensures CleanState(HandleLine(st, line).0)
    ensures forall e | e in HandleLine(st, line).1 :: CleanEvent(e)
  {
    assert forall c | c in Value(line) :: c in line;
    JoinHasNoCr(st.data);
  }

  lemma {:induction false} HandleLinesClean(st: State, lines: seq<string>)
    requires CleanState(st) && forall line | line in lines :: Unterminated(line)
    ensures CleanState(HandleLines(st, lines).0)
    ensures forall e | e in HandleLines(st, lines).1 :: CleanEvent(e)
    decreases |lines|
  {
    if |lines| > 0 {
      assert lines[0] in lines;
      HandleLineClean(st, lines[0]);
      HandleLinesClean(HandleLine(st, lines[0]).0, lines[1..]);
    }
  }

  lemma {:induction false} NothingLeft(s: string)
    requires |s| > 0 ==> s[|s| - 1] == '\n'
    ensures Standard(s).1 == ""
    decreases |s|
  {
    if FirstLineEnd(s, 0).Some? {
      NothingLeft(s[FirstLineEnd(s, 0).value.next..]);
    }
  }

  lemma StandardParseClean(s: string)
    requires |s| > 0 && s[|s| - 1] == '\n'
    ensures forall e | e in StandardParse(s) :: CleanEvent(e)
  {
    NothingLeft(s);
    StandardLinesUnterminated(s);
    HandleLinesClean(INITIAL, Standard(s).0);
    JoinHasNoCr(HandleLines(INITIAL, Standard(s).0).0.data);
  }

  lemma ParseCharacters(s: string)
    ensures Concat(Characters(s)) == s && Parse(Characters(s)) == StandardParse(s)
  {
    CharactersConcat(s);
    CharactersAreStandard("", s);
    AppendNil(s);
    ParseOfLines(Characters(s));
  }

  /** Printing then parsing returns an event, for every cut, exactly when it is printable: an empty name comes
      back absent, a name with a line break is cut short, and a carriage return in the data breaks its line. */
  lemma OnlyPrintableSurvive(e: Event)
    ensures (forall chunks | Concat(chunks) == Encode(e) :: Parse(chunks) == [e]) <==> Printable(e)
  {
    var s := Encode(e);
    ParseCharacters(s);
    StandardParseClean(s);
    EncodeAllSingle(e);
    if Printable(e) {
      forall chunks | Concat(chunks) == s
        ensures Parse(chunks) == [e]
      {
        ParseUndoesPrint([e], chunks);
      }
    } else if e.event == Some("") && '\r' !in e.data {
      var unnamed := Event(None, e.data);
      assert Encode(unnamed) == s;
      EncodeAllSingle(unnamed);
      ParseUndoesPrint([unnamed], Characters(s));
    } else {
      assert !CleanEvent(e);
      assert e in [e];
    }
  }

  lemma EncodeAllSingle(e: Event)
    ensures EncodeAll([e]) == Encode(e)
  {
    assert |[e][1..]| == 0;
    AppendNil(Encode(e));
  }
}

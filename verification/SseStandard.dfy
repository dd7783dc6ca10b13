/** The event stream interpretation of WHATWG HTML section 9.2.6, written down on its own, and exactly when the
    parser agrees with it: it also dispatches blocks without data and whatever the end of the stream cuts off. */
module SseStandard {
  import opened Basics
  import opened Lines
  import opened Sse
  import opened SseLines
  import opened SseRoundTrip

  // ---- Section 9.2.6 --------------------------------------------------------------------------

  datatype Message = Message(kind: string, data: string)

  /** The data buffer and the event type buffer. */
  datatype Buffers = Buffers(data: string, kind: string)

  const CLEAR := Buffers("", "")

  /** A blank line: nothing to dispatch if the data buffer is empty, else the data without its last LF. */
  function DispatchMessage(b: Buffers): seq<Message> {
    if |b.data| == 0 then []
    else [Message(if b.kind == "" then "message" else b.kind, b.data[..|b.data| - 1])]
  }

  /** The characters before the first colon; the whole line if there is none. */
  function FieldName(line: string): string {
    if line == "" || line[0] == ':' then "" else [line[0]] + FieldName(line[1..])
  }

  /** The characters after the first colon. */
  function AfterColon(line: string): Option<string> {
    if line == "" then None else if line[0] == ':' then Some(line[1..]) else AfterColon(line[1..])
  }

  /** The characters after the first colon, without one leading space; nothing if there is no colon. */
  function FieldValue(line: string): string {
    match AfterColon(line)
    case None => ""
    case Some(value) => if value != "" && value[0] == ' ' then value[1..] else value
  }

  function ProcessField(b: Buffers, field: string, value: string): Buffers {
    if field == "event" then b.(kind := value)
    else if field == "data" then b.(data := b.data + (value + "\n"))
    else b
  }

  function Interpret(b: Buffers, line: string): (Buffers, seq<Message>) {
    if line == "" then (CLEAR, DispatchMessage(b))
    else if line[0] == ':' then (b, [])
    else (ProcessField(b, FieldName(line), FieldValue(line)), [])
  }

  function InterpretAll(b: Buffers, lines: seq<string>): (Buffers, seq<Message>)
    decreases |lines|
  {
    if |lines| == 0 then (b, [])
    else
      var (b1, first) := Interpret(b, lines[0]);
      var (b2, rest) := InterpretAll(b1, lines[1..]);
      (b2, first + rest)
  }

  predicate EndsWithCr(rest: string) {
    |rest| > 0 && rest[|rest| - 1] == '\r'
  }

  /** The messages of a whole stream. A final CR ends its line; what is pending at the end is discarded. */
  function Messages(s: string): seq<Message> {
    var (lines, rest) := Standard(s);
    var (b, messages) := InterpretAll(CLEAR, lines);
    messages + if EndsWithCr(rest) then Interpret(b, rest[..|rest| - 1]).1 else []
  }

  // ---- The parser's fields --------------------------------------------------------------------

  /** A line made of a field, a colon and a value; the value loses one leading space. */
  lemma FieldOfParts(field: string, value: string)
    requires ':' !in field
    ensures Field(field + ":" + value) == field
    ensures Value(field + ":" + value) == if value != "" && value[0] == ' ' then value[1..] else value
  {
    var line, n := field + ":" + value, |field|;
    assert line[..n] == field && line[n] == ':' && line[n + 1..] == value;
    assert forall i | 0 <= i < n :: line[i] == field[i];
    FindIs(line, ':', n);
    if value != "" {
      assert line[n + 1] == value[0] && line[n + 2..] == value[1..];
    }
  }

  /** A line without a colon is a field without a value. */
  lemma FieldWithoutValue(line: string)
    requires ':' !in line
    ensures Field(line) == line && Value(line) == ""
  {
    FindNone(line, ':');
  }

  /** The standard's field and value put the line together again. */
  lemma {:induction false} LineOfField(line: string)
    ensures ':' !in FieldName(line)
    ensures match AfterColon(line)
            case None => line == FieldName(line)
            case Some(value) => line == FieldName(line) + ":" + value
    decreases |line|
  {
    if line != "" && line[0] != ':' {
      LineOfField(line[1..]);
      var rest := AfterColon(line[1..]);
      if rest.Some? {
        Associative([line[0]], FieldName(line[1..]), ":");
        Associative([line[0]], FieldName(line[1..]) + ":", rest.value);
      }
    }
  }

  lemma SameField(line: string)
    ensures Field(line) == FieldName(line) && Value(line) == FieldValue(line)
  {
    LineOfField(line);
    match AfterColon(line)
    case None => FieldWithoutValue(line);
    case Some(value) => FieldOfParts(FieldName(line), value);
  }

  // ---- The parser's events as messages --------------------------------------------------------

  function Seen(e: Event): Message {
    Message(if e.event.None? || e.event.value == "" then "message" else e.event.value, e.data)
  }

  function SeenAll(events: seq<Event>): (messages: seq<Message>)
    ensures |messages| == |events|
  {
    if |events| == 0 then [] else [Seen(events[0])] + SeenAll(events[1..])
  }

  lemma {:induction false} SeenAppend(a: seq<Event>, b: seq<Event>)
    ensures SeenAll(a + b) == SeenAll(a) + SeenAll(b)
    decreases |a|
  {
    if |a| == 0 {
      AppendNil(b);
      AppendNil(SeenAll(b));
    } else {
      SeenAppend(a[1..], b);
      AppendUncons(a, b);
      Associative([Seen(a[0])], SeenAll(a[1..]), SeenAll(b));
    }
  }

  // ---- When they agree ------------------------------------------------------------------------

  /** Whether the block under construction has an event name, and whether it has data. */
  datatype Block = Block(named: bool, filled: bool)

  const NEW_BLOCK := Block(false, false)

  function Continue(block: Block, line: string): Block {
    if line == "" then NEW_BLOCK
    else if line[0] == ':' then block
    else if FieldName(line) == "event" then block.(named := true)
    else if FieldName(line) == "data" then block.(filled := true)
    else block
  }

  function ContinueAll(block: Block, lines: seq<string>): Block
    decreases |lines|
  {
    if |lines| == 0 then block else ContinueAll(Continue(block, lines[0]), lines[1..])
  }

  /** How many blocks are named, have no data, and are ended by a blank line. */
  function Empties(block: Block, lines: seq<string>): nat
    decreases |lines|
  {
    if |lines| == 0 then 0
    else (if lines[0] == "" && block.named && !block.filled then 1 else 0) + Empties(Continue(block, lines[0]), lines[1..])
  }

  /** The stream ends with nothing pending: after a blank line, of which the final CR may be the end, or in a
      line that is no field of an event. */
  predicate TidyEnd(block: Block, rest: string) {
    if rest == "\r" then block.named ==> block.filled
    else if rest == "" then block == NEW_BLOCK
    else Continue(block, rest) == NEW_BLOCK
  }

  /** Every block that has a name has data, and nothing is pending at the end. */
  predicate Tidy(s: string) {
    var (lines, rest) := Standard(s);
    Empties(NEW_BLOCK, lines) == 0 && TidyEnd(ContinueAll(NEW_BLOCK, lines), rest)
  }

  function WithLf(parts: seq<string>): string {
    if |parts| == 0 then "" else parts[0] + "\n" + WithLf(parts[1..])
  }

  lemma {:induction false} WithLfAppend(parts: seq<string>, last: string)
    ensures WithLf(parts + [last]) == WithLf(parts) + (last + "\n")
    decreases |parts|
  {
    if |parts| == 0 {
      AppendNil([last]);
      assert |[last][1..]| == 0;
    } else {
      WithLfAppend(parts[1..], last);
      AppendUncons(parts, [last]);
      Associative(parts[0] + "\n", WithLf(parts[1..]), last + "\n");
    }
  }

  lemma {:induction false} JoinIsWithLf(parts: seq<string>)
    requires |parts| > 0
    ensures |WithLf(parts)| > 0 && WithLf(parts)[..|WithLf(parts)| - 1] == Join(parts)
    decreases |parts|
  {
    if |parts| == 1 {
      assert |parts[1..]| == 0;
      AppendNil(parts[0] + "\n");
    } else {
      JoinIsWithLf(parts[1..]);
      var front, back := parts[0] + "\n", WithLf(parts[1..]);
      LastOfAppend(front, back);
    }
  }

  /** The parser's state, the standard's buffers and the block's marks say the same. */
  ghost predicate Same(st: State, b: Buffers, block: Block) {
    && b.data == WithLf(st.data)
    && b.kind == (if st.event.Some? then st.event.value else "")
    && block == Block(st.event.Some?, |st.data| > 0)
  }

  /** Where both dispatch, they dispatch the same; a block with a name and no data only the parser dispatches. */
  lemma DispatchesSame(st: State, b: Buffers, block: Block)
    requires Same(st, b, block)
    ensures Same(Dispatch(st).0, CLEAR, NEW_BLOCK)
    ensures block.filled || !block.named ==> SeenAll(Dispatch(st).1) == DispatchMessage(b)
    ensures block.named && !block.filled ==> |Dispatch(st).1| == 1 && DispatchMessage(b) == []
    ensures |Dispatch(st).1| == if block.named || block.filled then 1 else 0
  {
    if |st.data| > 0 {
      JoinIsWithLf(st.data);
      var e := Event(st.event, Join(st.data));
      assert |[e][1..]| == 0;
      AppendNil([Seen(e)]);
    }
  }

  lemma FieldSame(st: State, b: Buffers, block: Block, line: string)
    requires Same(st, b, block) && line != ""
    ensures HandleLine(st, line).1 == [] && Interpret(b, line).1 == []
    ensures Same(HandleLine(st, line).0, Interpret(b, line).0, Continue(block, line))
  {
    SameField(line);
    WithLfAppend(st.data, Value(line));
  }

  /** Line by line, the parser sees the standard's messages, and one more for each named block without data. */
  lemma {:induction false} LinesSame(st: State, b: Buffers, block: Block, lines: seq<string>)
    requires Same(st, b, block)
    ensures var (st', events) := HandleLines(st, lines);
            var (b', messages) := InterpretAll(b, lines);
            && Same(st', b', ContinueAll(block, lines))
            && |events| == |messages| + Empties(block, lines)
            && (Empties(block, lines) == 0 ==> SeenAll(events) == messages)
    decreases |lines|
  {
    if |lines| > 0 {
      var (st1, first) := HandleLine(st, lines[0]);
      var (b1, shown) := Interpret(b, lines[0]);
      if lines[0] == "" {
        DispatchesSame(st, b, block);
      } else {
        FieldSame(st, b, block, lines[0]);
      }
      LinesSame(st1, b1, Continue(block, lines[0]), lines[1..]);
      SeenAppend(first, HandleLines(st1, lines[1..]).1);
    }
  }

  /** What the end of the stream adds, to the parser's events and to the messages. */
  lemma EndSame(st: State, b: Buffers, block: Block, rest: string)
    requires Same(st, b, block)
    ensures var events := Flush(st.(buffer := rest)).1;
            var messages := if EndsWithCr(rest) then Interpret(b, rest[..|rest| - 1]).1 else [];
            && |messages| <= |events|
            && (TidyEnd(block, rest) ==> SeenAll(events) == messages)
            && (!TidyEnd(block, rest) ==> |messages| < |events|)
  {
    if rest == "\r" {
      assert rest[..0] == "" && FieldName(rest) == rest;
      FieldSame(st, b, block, rest);
      DispatchesSame(HandleLine(st.(buffer := ""), rest).0, b, block);
    } else if rest == "" {
      DispatchesSame(st, b, block);
    } else {
      FieldSame(st, b, block, rest);
      DispatchesSame(HandleLine(st.(buffer := ""), rest).0, Interpret(b, rest).0, Continue(block, rest));
      if EndsWithCr(rest) && rest[..|rest| - 1] != "" {
        FieldSame(st, b, block, rest[..|rest| - 1]);
      }
    }
  }

  /** The lines and the end taken together. */
  lemma AgreeTogether(events: seq<Event>, last: seq<Event>, messages: seq<Message>, final: seq<Message>, empties: nat, tidy: bool)
    requires |events| == |messages| + empties && (empties == 0 ==> SeenAll(events) == messages)
    requires |final| <= |last| && (tidy ==> SeenAll(last) == final) && (!tidy ==> |final| < |last|)
    ensures SeenAll(events + last) == messages + final <==> empties == 0 && tidy
    ensures !(empties == 0 && tidy) ==> |events + last| > |messages + final|
  {
    SeenAppend(events, last);
  }

  /** Main result: for any cut of a text whose terminators are in order, the parser's events are the messages of
      section 9.2.6 exactly when the text is tidy; otherwise it sends more of them. */
  lemma StandardExactlyWhenTidy(chunks: seq<string>)
    requires Ordered(Concat(chunks))
    ensures SeenAll(Parse(chunks)) == Messages(Concat(chunks)) <==> Tidy(Concat(chunks))
    ensures !Tidy(Concat(chunks)) ==> |Parse(chunks)| > |Messages(Concat(chunks))|
  {
    var s := Concat(chunks);
    OrderedParse(chunks);
    var (lines, rest) := Standard(s);
    var (st, events) := HandleLines(INITIAL, lines);
    var (b, messages) := InterpretAll(CLEAR, lines);
    LinesSame(INITIAL, CLEAR, NEW_BLOCK, lines);
    EndSame(st, b, ContinueAll(NEW_BLOCK, lines), rest);
    var final := if EndsWithCr(rest) then Interpret(b, rest[..|rest| - 1]).1 else [];
    AgreeTogether(events, Flush(st.(buffer := rest)).1, messages, final, Empties(NEW_BLOCK, lines),
                  TidyEnd(ContinueAll(NEW_BLOCK, lines), rest));
  }

  /** A name and a blank line are not tidy: the parser sends an event, the standard sends none. */
  lemma NamedBlockWithoutData(name: string)
    requires Unterminated(name)
    ensures var s := "event: " + name + "\n" + "\n"; Ordered(s) && !Tidy(s)
  {
    var line := "event: " + name;
    var s := line + "\n" + "\n";
    PrefixedLine("event", name);
    assert "event" + ": " + name == line;
    SameField(line);
    assert "" + "\n" + "" == "\n";
    FirstLine("", "");
    assert Unterminated(line);
    FirstLine(line, "\n");
    assert Standard(s) == ([line] + ([""] + []), "");
    OneNamedBlock(line);
    LfOnlyIsOrdered(s);
  }

  lemma OneNamedBlock(line: string)
    requires line != "" && line[0] != ':' && FieldName(line) == "event"
    ensures Empties(NEW_BLOCK, [line] + ([""] + [])) == 1
  {
    var lines := [line] + ([""] + []);
    assert lines[1..] == [""] && |[""][1..]| == 0;
  }

  // ---- What is printed is tidy ----------------------------------------------------------------

  lemma {:induction false} ContinueAppend(block: Block, a: seq<string>, b: seq<string>)
    ensures ContinueAll(block, a + b) == ContinueAll(ContinueAll(block, a), b)
    ensures Empties(block, a + b) == Empties(block, a) + Empties(ContinueAll(block, a), b)
    decreases |a|
  {
    if |a| == 0 {
      AppendNil(b);
    } else {
      AppendUncons(a, b);
      ContinueAppend(Continue(block, a[0]), a[1..], b);
    }
  }

  lemma ContinueOne(block: Block, line: string)
    ensures ContinueAll(block, [line]) == Continue(block, line)
    ensures Empties(block, [line]) == if line == "" && block.named && !block.filled then 1 else 0
  {
    assert |[line][1..]| == 0;
  }

  lemma {:induction false} DataLinesFill(block: Block, parts: seq<string>)
    ensures ContinueAll(block, DataLines(parts)) == if |parts| > 0 then block.(filled := true) else block
    ensures Empties(block, DataLines(parts)) == 0
    decreases |parts|
  {
    if |parts| > 0 {
      var line := "data: " + parts[0];
      PrefixedLine("data", parts[0]);
      assert "data" + ": " + parts[0] == line;
      SameField(line);
      DataLinesFill(block.(filled := true), parts[1..]);
      ContinueAppend(block, [line], DataLines(parts[1..]));
      ContinueOne(block, line);
    }
  }

  /** The lines of a printed event and a blank line make one block with data. */
  lemma PrintedBlock(e: Event)
    requires Printable(e)
    ensures ContinueAll(NEW_BLOCK, EventLines(e) + [""]) == NEW_BLOCK && Empties(NEW_BLOCK, EventLines(e) + [""]) == 0
  {
    var parts := SplitLines(e.data);
    var name := if e.event.Some? then ["event: " + e.event.value] else [];
    var named := Block(e.event.Some?, false);
    if e.event.Some? {
      PrefixedLine("event", e.event.value);
      assert "event" + ": " + e.event.value == "event: " + e.event.value;
      SameField("event: " + e.event.value);
      ContinueOne(NEW_BLOCK, "event: " + e.event.value);
    }
    DataLinesFill(named, parts);
    ContinueAppend(NEW_BLOCK, name, DataLines(parts));
    ContinueAppend(NEW_BLOCK, EventLines(e), [""]);
    ContinueOne(Block(e.event.Some?, true), "");
  }

  lemma {:induction false} PrintedLines(es: seq<Event>)
    requires AllPrintable(es)
    ensures var (lines, rest) := Standard(EncodeAll(es));
            rest == "" && ContinueAll(NEW_BLOCK, lines) == NEW_BLOCK && Empties(NEW_BLOCK, lines) == 0
    decreases |es|
  {
    if |es| > 0 {
      PrintedLines(es[1..]);
      EncodedLines(es[0], EncodeAll(es[1..]));
      PrintedBlock(es[0]);
      ContinueAppend(NEW_BLOCK, EventLines(es[0]) + [""], Standard(EncodeAll(es[1..])).0);
    }
  }

  /** A client that follows the standard reads from the printed form of events exactly these events. */
  lemma StandardReadsPrint(es: seq<Event>)
    requires AllPrintable(es)
    ensures Messages(EncodeAll(es)) == SeenAll(es)
  {
    PrintedLines(es);
    EncodedHasNoCr(es);
    LfOnlyIsOrdered(EncodeAll(es));
    ConcatSingle(EncodeAll(es));
    StandardExactlyWhenTidy([EncodeAll(es)]);
    ParseUndoesPrint(es, [EncodeAll(es)]);
  }
}

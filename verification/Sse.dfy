/** Server-sent events: the printer, the incremental parser as functions on its state, and the line
    terminators of WHATWG HTML section 9.2.5. */
module Sse {
  import opened Basics
  import opened Lines

  datatype Event = Event(event: Option<string>, data: string)

  datatype State = State(buffer: string, event: Option<string>, data: seq<string>)

  const INITIAL := State("", None, [])

  /** A line's end and the start of the next line. */
  datatype LineEnd = LineEnd(end: nat, next: nat)

  predicate CrLfAt(s: string, i: nat) {
    i + 1 < |s| && s[i] == '\r' && s[i + 1] == '\n'
  }

  function FindCrLf(s: string, from: nat): (r: Option<nat>)
    ensures r.Some? ==> from <= r.value && CrLfAt(s, r.value)
    ensures forall i: nat | from <= i && (r.Some? ==> i < r.value) :: !CrLfAt(s, i)
    decreases |s| - from
  {
    if from >= |s| then None else if CrLfAt(s, from) then Some(from) else FindCrLf(s, from + 1)
  }

  /** Where the parser ends the next line: at any CRLF, else at any LF, else at a CR that is not the last
      character, which may be half of a CRLF still in flight. */
  function FindLineEnd(buffer: string): (r: Option<LineEnd>)
    ensures r.Some? ==> r.value.end < r.value.next <= |buffer|
  {
    match FindCrLf(buffer, 0)
    case Some(p) => Some(LineEnd(p, p + 2))
    case None =>
      match Find(buffer, '\n', 0)
      case Some(p) => Some(LineEnd(p, p + 1))
      case None =>
        match Find(buffer, '\r', 0)
        case None => None
        case Some(p) => if p == |buffer| - 1 then None else Some(LineEnd(p, p + 1))
  }

  /** Lines completed by a buffer, and what is left of it. */
  function Drain(buffer: string): (seq<string>, string)
    decreases |buffer|
  {
    match FindLineEnd(buffer)
    case None => ([], buffer)
    case Some(LineEnd(end, next)) =>
      var (lines, rest) := Drain(buffer[next..]);
      ([buffer[..end]] + lines, rest)
  }

  function Join(parts: seq<string>): string {
    if |parts| == 0 then ""
    else if |parts| == 1 then parts[0]
    else parts[0] + "\n" + Join(parts[1..])
  }

  /** Dispatch an event unless nothing has been collected for it. */
  function Dispatch(st: State): (State, seq<Event>) {
    if |st.data| == 0 && st.event.None? then (st, [])
    else (st.(event := None, data := []), [Event(st.event, Join(st.data))])
  }

  /** The field name of a line, and its value without one leading space. */
  function Field(line: string): string {
    match Find(line, ':', 0)
    case None => line
    case Some(p) => line[..p]
  }

  function Value(line: string): string {
    match Find(line, ':', 0)
    case None => ""
    case Some(p) =>
      if p + 1 < |line| && line[p + 1] == ' ' then line[p + 2..] else line[p + 1..]
  }

  function HandleLine(st: State, line: string): (State, seq<Event>) {
    if line == "" then Dispatch(st)
    else if line[0] == ':' then (st, [])
    else if Field(line) == "event" then (st.(event := Some(Value(line))), [])
    else if Field(line) == "data" then (st.(data := st.data + [Value(line)]), [])
    else (st, [])
  }

  function HandleLines(st: State, lines: seq<string>): (State, seq<Event>)
    decreases |lines|
  {
    if |lines| == 0 then (st, [])
    else
      var (st1, first) := HandleLine(st, lines[0]);
      var (st2, rest) := HandleLines(st1, lines[1..]);
      (st2, first + rest)
  }

  function Feed(st: State, text: string): (State, seq<Event>) {
    var (lines, rest) := Drain(st.buffer + text);
    var (after, events) := HandleLines(st, lines);
    (after.(buffer := rest), events)
  }

  /** End of stream: an unfinished line still counts, and so does an undispatched event. */
  function Flush(st: State): (State, seq<Event>) {
    var handled := if st.buffer == "" then st else HandleLine(st.(buffer := ""), st.buffer).0;
    Dispatch(handled)
  }

  function FeedAll(st: State, chunks: seq<string>): (State, seq<Event>)
    decreases |chunks|
  {
    if |chunks| == 0 then (st, [])
    else
      var (st1, first) := Feed(st, chunks[0]);
      var (st2, rest) := FeedAll(st1, chunks[1..]);
      (st2, first + rest)
  }

  /** A whole stream. */
  function Parse(chunks: seq<string>): seq<Event> {
    var (st, events) := FeedAll(INITIAL, chunks);
    events + Flush(st).1
  }

  // ---- Printing -------------------------------------------------------------------------------

  function DataLines(parts: seq<string>): seq<string> {
    if |parts| == 0 then [] else ["data: " + parts[0]] + DataLines(parts[1..])
  }

  /** The lines an event is printed as. */
  function EventLines(e: Event): seq<string> {
    (if e.event.Some? && e.event.value != "" then ["event: " + e.event.value] else []) + DataLines(SplitLines(e.data))
  }

  function Encode(e: Event): string {
    Join(EventLines(e)) + "\n\n"
  }

  function EncodeAll(es: seq<Event>): string {
    if |es| == 0 then "" else Encode(es[0]) + EncodeAll(es[1..])
  }
}

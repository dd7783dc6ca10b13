/** The parser object: one buffer, one event under construction, changed line by line. */
module SseParsers {
  import opened Basics
  import opened Sse
  import opened SseRoundTrip

  /** What remains to be drained and what has been handled make up the whole feed. */
  ghost predicate Progress(start: Sse.State, whole: string, done: seq<string>, st: Sse.State, events: seq<Event>) {
    && Drain(whole) == (done + Drain(st.buffer).0, Drain(st.buffer).1)
    && st == HandleLines(start, done).0.(buffer := st.buffer)
    && events == HandleLines(start, done).1
  }

  lemma ProgressStart(start: Sse.State, whole: string)
    ensures Progress(start, whole, [], start.(buffer := whole), [])
  {
    AppendNil(Drain(whole).0);
  }

  lemma ProgressLine(start: Sse.State, whole: string, done: seq<string>, st: Sse.State, events: seq<Event>)
    requires Progress(start, whole, done, st, events) && FindLineEnd(st.buffer).Some?
    ensures var LineEnd(end, next) := FindLineEnd(st.buffer).value;
            var line := st.buffer[..end];
            var (after, more) := Sse.HandleLine(st.(buffer := st.buffer[next..]), line);
            Progress(start, whole, done + [line], after, events + more)
  {
    DrainAdvances(whole, done, st.buffer);
    var LineEnd(end, next) := FindLineEnd(st.buffer).value;
    HandleAdvances(start, done, st, events, st.buffer[..end], st.buffer[next..]);
  }

  lemma DrainAdvances(whole: string, done: seq<string>, buffer: string)
    requires Drain(whole) == (done + Drain(buffer).0, Drain(buffer).1) && FindLineEnd(buffer).Some?
    ensures var LineEnd(end, next) := FindLineEnd(buffer).value;
            Drain(whole) == (done + [buffer[..end]] + Drain(buffer[next..]).0, Drain(buffer[next..]).1)
  {
    var LineEnd(end, next) := FindLineEnd(buffer).value;
    Associative(done, [buffer[..end]], Drain(buffer[next..]).0);
  }

  lemma HandleAdvances(start: Sse.State, done: seq<string>, st: Sse.State, events: seq<Event>, line: string,
                       rest: string)
    requires st == HandleLines(start, done).0.(buffer := st.buffer) && events == HandleLines(start, done).1
    ensures var (after, more) := Sse.HandleLine(st.(buffer := rest), line);
              && after == HandleLines(start, done + [line]).0.(buffer := rest)
              && events + more == HandleLines(start, done + [line]).1
  {
    HandleLinesAppend(start, done, [line]);
    HandleOne(HandleLines(start, done).0, line);
  }

  lemma ProgressEnd(start: Sse.State, text: string, done: seq<string>, st: Sse.State, events: seq<Event>)
    requires Progress(start, start.buffer + text, done, st, events) && FindLineEnd(st.buffer).None?
    ensures Sse.Feed(start, text) == (st, events)
  {
    AppendNil(done);
  }

  class SseParser {
    var buffer: string
    var event: Option<string>
    var data: seq<string>

    function State(): Sse.State
      reads this
    {
      Sse.State(buffer, event, data)
    }

    constructor ()
      ensures State() == INITIAL
    {
      buffer, event, data := "", None, [];
    }

    method Dispatch() returns (events: seq<Event>)
      modifies this
      ensures (State(), events) == Sse.Dispatch(old(State()))
    {
      if |data| == 0 && event.None? {
        return [];
      }
      events := [Event(event, Join(data))];
      event, data := None, [];
    }

    method HandleLine(line: string) returns (events: seq<Event>)
      modifies this
      ensures (State(), events) == Sse.HandleLine(old(State()), line)
    {
      events := [];
      if line == "" {
        events := Dispatch();
      } else if line[0] != ':' {
        var name, value := Field(line), Value(line);
        if name == "event" {
          event := Some(value);
        } else if name == "data" {
          data := data + [value];
        }
      }
    }

    method Feed(chunk: string) returns (events: seq<Event>)
      modifies this
      ensures (State(), events) == Sse.Feed(old(State()), chunk)
    {
      buffer := buffer + chunk;
      events := [];
      ghost var start, whole := old(State()), buffer;
      ghost var done: seq<string> := [];
      ProgressStart(start, whole);
      var found := FindLineEnd(buffer);
      while found.Some?
        invariant found == FindLineEnd(buffer)
        invariant Progress(start, whole, done, State(), events)
        decreases |buffer|
      {
        ProgressLine(start, whole, done, State(), events);
        var LineEnd(end, next) := found.value;
        var line := buffer[..end];
        buffer := buffer[next..];
        var more := HandleLine(line);
        events := events + more;
        done := done + [line];
        found := FindLineEnd(buffer);
      }
      ProgressEnd(start, chunk, done, State(), events);
    }

    method Flush() returns (events: seq<Event>)
      modifies this
      ensures (State(), events) == Sse.Flush(old(State()))
    {
      if buffer != "" {
        var line := buffer;
        buffer := "";
        var _ := HandleLine(line);
      }
      events := Dispatch();
    }
  }
}

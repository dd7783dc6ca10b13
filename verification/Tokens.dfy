/** Token accounting: reservation size, usage reported by a response body, and the collector that reads
    usage off a stream as its lines complete. */
module Tokens {
  import opened Basics
  import opened Lines

  datatype Json =
    | Null
    | Bool(b: bool)
    | Int(n: int)
    | Other                      // floats: never counted
    | Str(s: string)
    | List(items: seq<Json>)
    | Object(fields: map<string, Json>)

  const DEFAULT_MAX_TOKENS: nat := 1_024
  const MAX_RESERVABLE_TOKENS: nat := 1_000_000
  const MINIMUM_CHARGE: nat := 1

  function Get(j: Json, key: string): Option<Json> {
    if j.Object? && key in j.fields then Some(j.fields[key]) else None
  }

  /** Tokens to hold for a request: the prompt estimate plus the completion ceiling. Booleans, other types and
      non-positive ceilings count as the default; absurd ones are clamped. */
  function ReservationSize(estimate: nat, maxTokens: Option<Json>): (r: nat)
    requires estimate >= 1
    ensures maxTokens.Some? && maxTokens.value.Int? && maxTokens.value.n > 0
            ==> r == estimate + if maxTokens.value.n <= 1_000_000 then maxTokens.value.n else 1_000_000
    ensures !(maxTokens.Some? && maxTokens.value.Int? && maxTokens.value.n > 0) ==> r == estimate + 1_024
  {
    var ceiling :=
      match maxTokens
      case Some(Int(n)) => if n <= 0 then DEFAULT_MAX_TOKENS else n
      case _ => DEFAULT_MAX_TOKENS;
    estimate + Min(ceiling, MAX_RESERVABLE_TOKENS)
  }

  // ---- Usage in a response body ---------------------------------------------------------------

  const BODY_KEYS := ["input_tokens", "output_tokens", "cache_creation_input_tokens", "cache_read_input_tokens"]

  /** A count the body reader accepts. A boolean is an integer to it, unlike to the stream collector. */
  function BodyCount(j: Option<Json>): Option<nat> {
    match j
    case Some(Int(n)) => if n >= 0 then Some(n) else None
    case Some(Bool(b)) => Some(if b then 1 else 0)
    case _ => None
  }

  function SumCounts(usage: Json, keys: seq<string>): (r: Option<nat>)
    ensures r.None? <==> forall k | k in keys :: BodyCount(Get(usage, k)).None?
  {
    if |keys| == 0 then None
    else
      var rest := SumCounts(usage, keys[1..]);
      assert forall k | k in keys :: k == keys[0] || k in keys[1..];
      match BodyCount(Get(usage, keys[0]))
      case None => rest
      case Some(n) => Some(n + if rest.Some? then rest.value else 0)
  }

  /** Real token spend of a response, or nothing if it did not say. */
  function ActualTokens(body: Json): (r: Option<nat>)
    ensures r.Some? ==> r.value >= MINIMUM_CHARGE
  {
    match Get(body, "usage")
    case None => None
    case Some(usage) =>
      match SumCounts(usage, BODY_KEYS)
      case None => None
      case Some(total) => Some(Max(MINIMUM_CHARGE, total))
  }

  /** Whether a value is a count: a number that is not negative, or, where `booleans` count, a boolean. */
  predicate IsCount(j: Json, booleans: bool) {
    (j.Int? && j.n >= 0) || (booleans && j.Bool?)
  }

  /** Whether an object has a count under a key. */
  predicate Tells(usage: Json, key: string, booleans: bool) {
    usage.Object? && key in usage.fields && IsCount(usage.fields[key], booleans)
  }

  /** The count under a key, and nothing if there is none. */
  function Told(usage: Json, key: string, booleans: bool): nat {
    if !Tells(usage, key, booleans) then 0
    else
      match usage.fields[key]
      case Int(n) => n
      case Bool(b) => if b then 1 else 0
  }

  /** What a response says it cost: the four counts of its usage object added up, missing or unreadable ones as
      nothing, and at least one token; or no answer if none of them can be read. */
  function SpendOf(body: Json): Option<nat> {
    if !(body.Object? && "usage" in body.fields) then None
    else
      var usage := body.fields["usage"];
      if || Tells(usage, "input_tokens", true) || Tells(usage, "output_tokens", true)
         || Tells(usage, "cache_creation_input_tokens", true) || Tells(usage, "cache_read_input_tokens", true) then
        Some(Max(1, Told(usage, "input_tokens", true) + Told(usage, "output_tokens", true)
                    + Told(usage, "cache_creation_input_tokens", true) + Told(usage, "cache_read_input_tokens", true)))
      else None
  }

  /** The body reader's accumulation over its keys is that sum. */
  lemma ActualIsSpend(body: Json)
    ensures ActualTokens(body) == SpendOf(body)
  {
    if body.Object? && "usage" in body.fields {
      var usage := body.fields["usage"];
      assert BODY_KEYS[1..] == ["output_tokens", "cache_creation_input_tokens", "cache_read_input_tokens"];
      assert BODY_KEYS[1..][1..] == ["cache_creation_input_tokens", "cache_read_input_tokens"];
      assert BODY_KEYS[1..][1..][1..] == ["cache_read_input_tokens"];
      assert BODY_KEYS[1..][1..][1..][1..] == [];
      CountIsTold(usage, "input_tokens");
      CountIsTold(usage, "output_tokens");
      CountIsTold(usage, "cache_creation_input_tokens");
      CountIsTold(usage, "cache_read_input_tokens");
      SumStep(usage, BODY_KEYS);
      SumStep(usage, BODY_KEYS[1..]);
      SumStep(usage, BODY_KEYS[1..][1..]);
      SumStep(usage, BODY_KEYS[1..][1..][1..]);
    }
  }

  lemma CountIsTold(usage: Json, key: string)
    ensures BodyCount(Get(usage, key)).Some? <==> Tells(usage, key, true)
    ensures BodyCount(Get(usage, key)).Some? ==> BodyCount(Get(usage, key)).value == Told(usage, key, true)
  {
  }

  lemma SumStep(usage: Json, keys: seq<string>)
    requires |keys| > 0
    ensures var first, rest := BodyCount(Get(usage, keys[0])), SumCounts(usage, keys[1..]);
            SumCounts(usage, keys) == if first.None? then rest else if rest.None? then first else Some(first.value + rest.value)
  {
  }

  // ---- Usage read off a stream ----------------------------------------------------------------

  /** Whitespace stripping and JSON parsing, as the runtime does them. */
  datatype Runtime = Runtime(strip: string -> string, loads: string -> Option<Json>)

  /** What one line adds: input counts, and a running output total. */
  datatype Report = Report(input: Option<nat>, output: Option<nat>)

  const NOTHING := Report(None, None)

  function StreamCount(j: Option<Json>): Option<nat> {
    match j
    case Some(Int(n)) => if n >= 0 then Some(n) else None
    case _ => None
  }

  /** The two readers differ on booleans, and on nothing else. */
  lemma ReadersDifferOnBooleans(j: Option<Json>)
    ensures BodyCount(j) == StreamCount(j) <==> !(j.Some? && j.value.Bool?)
  {
  }

  function AddCounts(a: Option<nat>, b: Option<nat>): Option<nat> {
    if a.None? then b else if b.None? then a else Some(a.value + b.value)
  }

  predicate IsObject(j: Option<Json>) {
    j.Some? && j.value.Object?
  }

  /** The usage object of an event: its own, or else its message's. */
  function UsageOf(event: Json): Option<Json> {
    var own := Get(event, "usage");
    var usage := if !IsObject(own) && IsObject(Get(event, "message"))
                 then Get(Get(event, "message").value, "usage") else own;
    if IsObject(usage) then usage else None
  }

  function ReportOf(usage: Json): Report {
    Report(AddCounts(AddCounts(StreamCount(Get(usage, "input_tokens")),
                               StreamCount(Get(usage, "cache_creation_input_tokens"))),
                     StreamCount(Get(usage, "cache_read_input_tokens"))),
           StreamCount(Get(usage, "output_tokens")))
  }

  predicate IsData(line: string) {
    "data:" <= line
  }

  function Read(rt: Runtime, line: string): Report {
    var stripped := rt.strip(line);
    if !IsData(stripped) then NOTHING
    else
      var payload := rt.strip(stripped[5..]);
      if payload == "" || payload == "[DONE]" then NOTHING
      else
        match rt.loads(payload)
        case None => NOTHING
        case Some(event) => if UsageOf(event).Some? then ReportOf(UsageOf(event).value) else NOTHING
  }

  datatype Counts = Counts(input: nat, output: nat, saw: bool)

  function Count(c: Counts, r: Report): Counts {
    Counts(c.input + (if r.input.Some? then r.input.value else 0),
           if r.output.Some? then r.output.value else c.output,
           c.saw || r.input.Some? || r.output.Some?)
  }

  function CountLines(rt: Runtime, c: Counts, lines: seq<string>): Counts
    decreases |lines|
  {
    if |lines| == 0 then c else CountLines(rt, Count(c, Read(rt, lines[0])), lines[1..])
  }

  datatype Collector = Collector(buffer: string, counts: Counts)

  const EMPTY := Collector("", Counts(0, 0, false))

  function Feed(rt: Runtime, c: Collector, text: string): Collector {
    var parts := SplitLines(c.buffer + text);
    var k := |parts| - 1;
    Collector(parts[k], CountLines(rt, c.counts, parts[..k]))
  }

  function FeedAll(rt: Runtime, c: Collector, chunks: seq<string>): Collector
    decreases |chunks|
  {
    if |chunks| == 0 then c else FeedAll(rt, Feed(rt, c, chunks[0]), chunks[1..])
  }

  /** The charge of a stream, if it reported anything. */
  function StreamTotal(c: Collector): Option<nat> {
    if !c.counts.saw then None else Some(Max(MINIMUM_CHARGE, c.counts.input + c.counts.output))
  }

  // ---- The total does not depend on the cuts --------------------------------------------------

  lemma {:induction false} CountLinesAppend(rt: Runtime, c: Counts, a: seq<string>, b: seq<string>)
    ensures CountLines(rt, c, a + b) == CountLines(rt, CountLines(rt, c, a), b)
    decreases |a|
  {
    if |a| == 0 {
      AppendNil(b);
    } else {
      AppendUncons(a, b);
      CountLinesAppend(rt, Count(c, Read(rt, a[0])), a[1..], b);
    }
  }

  lemma FeedTwice(rt: Runtime, c: Collector, x: string, y: string)
    ensures Feed(rt, Feed(rt, c, x), y) == Feed(rt, c, x + y)
  {
    var parts := SplitLines(c.buffer + x);
    var k := |parts| - 1;
    Associative(c.buffer, x, y);
    SplitAppend(c.buffer + x, y);
    var more := SplitLines(parts[k] + y);
    LastOfAppend(parts[..k], more);
    CountLinesAppend(rt, c.counts, parts[..k], more[..|more| - 1]);
  }

  lemma {:induction false} SplitNothing(rt: Runtime, c: Collector)
    requires '\n' !in c.buffer
    ensures Feed(rt, c, "") == c
  {
    AppendNil(c.buffer);
    var p := Find(c.buffer, '\n', 0);
    assert p.None?;
    assert [c.buffer][..0] == [];
  }

  lemma {:induction false} LastPartHasNoLf(text: string)
    ensures '\n' !in SplitLines(text)[|SplitLines(text)| - 1]
    decreases |text|
  {
    var p := Find(text, '\n', 0);
    if p.Some? {
      LastPartHasNoLf(text[p.value + 1..]);
    }
  }

  lemma {:induction false} CutsDoNotMatter(rt: Runtime, c: Collector, chunks: seq<string>)
    requires '\n' !in c.buffer
    ensures FeedAll(rt, c, chunks) == Feed(rt, c, Concat(chunks))
    decreases |chunks|
  {
    if |chunks| == 0 {
      SplitNothing(rt, c);
    } else {
      LastPartHasNoLf(c.buffer + chunks[0]);
      CutsDoNotMatter(rt, Feed(rt, c, chunks[0]), chunks[1..]);
      FeedTwice(rt, c, chunks[0], Concat(chunks[1..]));
    }
  }

  // ---- What the counters mean -----------------------------------------------------------------

  /** The usage an event carries: its own if that is an object, or else that of its message. */
  function UsageIn(event: Json): Json {
    if event.Object? && "usage" in event.fields && event.fields["usage"].Object? then event.fields["usage"]
    else if event.Object? && "message" in event.fields && event.fields["message"].Object?
            && "usage" in event.fields["message"].fields then event.fields["message"].fields["usage"]
    else Null
  }

  /** The usage on one line of a stream: a data line whose payload, other than [DONE], is the text of an event. */
  function UsageOn(rt: Runtime, line: string): Json {
    var stripped := rt.strip(line);
    if |stripped| < 5 || stripped[..5] != "data:" then Null
    else
      var payload := rt.strip(stripped[5..]);
      if payload in {"", "[DONE]"} || rt.loads(payload).None? then Null else UsageIn(rt.loads(payload).value)
  }

  /** The input counts of one line: plain, written to the cache, and read from it. */
  function InputOn(rt: Runtime, line: string): nat {
    var usage := UsageOn(rt, line);
    Told(usage, "input_tokens", false) + Told(usage, "cache_creation_input_tokens", false)
    + Told(usage, "cache_read_input_tokens", false)
  }

  predicate TellsInput(rt: Runtime, line: string) {
    var usage := UsageOn(rt, line);
    || Tells(usage, "input_tokens", false) || Tells(usage, "cache_creation_input_tokens", false)
    || Tells(usage, "cache_read_input_tokens", false)
  }

  predicate TellsOutput(rt: Runtime, line: string) {
    Tells(UsageOn(rt, line), "output_tokens", false)
  }

  /** Input counts of all lines together. */
  function InputSum(rt: Runtime, lines: seq<string>): nat {
    if |lines| == 0 then 0 else InputSum(rt, lines[..|lines| - 1]) + InputOn(rt, lines[|lines| - 1])
  }

  predicate Reports(rt: Runtime, line: string) {
    TellsInput(rt, line) || TellsOutput(rt, line)
  }

  /** The output count of the last line that gave one. */
  function LastOutput(rt: Runtime, lines: seq<string>): nat {
    if |lines| == 0 then 0
    else if TellsOutput(rt, lines[|lines| - 1]) then Told(UsageOn(rt, lines[|lines| - 1]), "output_tokens", false)
    else LastOutput(rt, lines[..|lines| - 1])
  }

  lemma StreamCountIsTold(usage: Json, key: string)
    ensures StreamCount(Get(usage, key)).Some? <==> Tells(usage, key, false)
    ensures StreamCount(Get(usage, key)).Some? ==> StreamCount(Get(usage, key)).value == Told(usage, key, false)
  {
  }

  /** What the collector reads off a usage object. */
  lemma ReportTells(usage: Json)
    ensures var r := ReportOf(usage);
            && (r.input.Some? <==> Tells(usage, "input_tokens", false) || Tells(usage, "cache_creation_input_tokens", false)
                                   || Tells(usage, "cache_read_input_tokens", false))
            && (r.input.Some? ==> r.input.value == Told(usage, "input_tokens", false)
                                                   + Told(usage, "cache_creation_input_tokens", false)
                                                   + Told(usage, "cache_read_input_tokens", false))
            && (r.output.Some? <==> Tells(usage, "output_tokens", false))
            && (r.output.Some? ==> r.output.value == Told(usage, "output_tokens", false))
  {
    StreamCountIsTold(usage, "input_tokens");
    StreamCountIsTold(usage, "cache_creation_input_tokens");
    StreamCountIsTold(usage, "cache_read_input_tokens");
    StreamCountIsTold(usage, "output_tokens");
  }

  lemma UsageFound(event: Json)
    ensures UsageOf(event) == if UsageIn(event).Object? then Some(UsageIn(event)) else None
  {
  }

  /** What the collector reads off a line. */
  lemma ReadTells(rt: Runtime, line: string)
    ensures var r := Read(rt, line);
            && (r.input.Some? <==> TellsInput(rt, line)) && (r.output.Some? <==> TellsOutput(rt, line))
            && InputOn(rt, line) == (if r.input.Some? then r.input.value else 0)
            && (r.output.Some? ==> r.output.value == Told(UsageOn(rt, line), "output_tokens", false))
  {
    var stripped := rt.strip(line);
    assert "data:" <= stripped <==> |stripped| >= 5 && stripped[..5] == "data:";
    ReportTells(UsageOn(rt, line));
    if IsData(stripped) {
      var loaded := rt.loads(rt.strip(stripped[5..]));
      if loaded.Some? {
        UsageFound(loaded.value);
      }
    }
  }

  ghost predicate AnyReports(rt: Runtime, lines: seq<string>) {
    exists i :: 0 <= i < |lines| && Reports(rt, lines[i])
  }

  /** The counters after some lines: input counts summed, the last output count, and whether any line counted. */
  ghost predicate Summarises(rt: Runtime, lines: seq<string>, c: Counts) {
    && c.input == InputSum(rt, lines)
    && c.output == LastOutput(rt, lines)
    && (c.saw <==> AnyReports(rt, lines))
  }

  lemma ReportsStep(rt: Runtime, before: seq<string>, last: string)
    ensures AnyReports(rt, before + [last]) <==> AnyReports(rt, before) || Reports(rt, last)
  {
    var lines := before + [last];
    assert lines[|before|] == last;
    if AnyReports(rt, before) {
      var i :| 0 <= i < |before| && Reports(rt, before[i]);
      assert lines[i] == before[i];
    }
    if AnyReports(rt, lines) {
      var i :| 0 <= i < |lines| && Reports(rt, lines[i]);
      assert i < |before| ==> lines[i] == before[i];
    }
  }

  lemma {:induction false} CountsSummarise(rt: Runtime, lines: seq<string>)
    ensures Summarises(rt, lines, CountLines(rt, EMPTY.counts, lines))
    decreases |lines|
  {
    if |lines| > 0 {
      var before, last := lines[..|lines| - 1], lines[|lines| - 1];
      CountsSummarise(rt, before);
      ReadTells(rt, last);
      assert lines == before + [last];
      CountLinesAppend(rt, EMPTY.counts, before, [last]);
      assert |[last][1..]| == 0;
      ReportsStep(rt, before, last);
    }
  }

  /** Main result: for every cut of a stream the collector ends the same way: the unfinished line is held, and
      over the complete lines input counts are summed and the last output count is kept. */
  lemma CollectorIgnoresCuts(rt: Runtime, chunks: seq<string>)
    ensures var parts := SplitLines(Concat(chunks));
            var end := FeedAll(rt, EMPTY, chunks);
            && end.buffer == parts[|parts| - 1]
            && Summarises(rt, parts[..|parts| - 1], end.counts)
  {
    CutsDoNotMatter(rt, EMPTY, chunks);
    var s := Concat(chunks);
    assert "" + s == s;
    CountsSummarise(rt, SplitLines(s)[..|SplitLines(s)| - 1]);
  }

  /** A stream is charged by what its complete lines reported, at least the minimum, and not at all by itself when
      none of them reported anything. */
  lemma StreamCharge(rt: Runtime, chunks: seq<string>)
    ensures var parts := SplitLines(Concat(chunks));
            var lines := parts[..|parts| - 1];
            StreamTotal(FeedAll(rt, EMPTY, chunks))
            == if AnyReports(rt, lines) then Some(Max(MINIMUM_CHARGE, InputSum(rt, lines) + LastOutput(rt, lines))) else None
  {
    CollectorIgnoresCuts(rt, chunks);
  }

  /** The collector object. */
  class StreamUsageCollector {
    const rt: Runtime
    var buffer: string
    var inputTokens: nat
    var outputTokens: nat
    var sawUsage: bool

    function State(): Collector
      reads this
    {
      Collector(buffer, Counts(inputTokens, outputTokens, sawUsage))
    }

    constructor (rt: Runtime)
      ensures this.rt == rt && State() == EMPTY
    {
      this.rt := rt;
      buffer, inputTokens, outputTokens, sawUsage := "", 0, 0, false;
    }

    method Consume(line: string)
      modifies this
      ensures State() == Collector(old(buffer), Count(old(State()).counts, Read(rt, line)))
    {
      var r := Read(rt, line);
      if r.input.Some? {
        inputTokens := inputTokens + r.input.value;
        sawUsage := true;
      }
      if r.output.Some? {
        outputTokens := r.output.value;
        sawUsage := true;
      }
    }

    method FeedChunk(chunk: string)
      modifies this
      ensures State() == Feed(rt, old(State()), chunk)
    {
      var parts := SplitLines(buffer + chunk);
      var k := |parts| - 1;
      var lines := parts[..k];
      buffer := parts[k];
      for i := 0 to k
        invariant buffer == parts[k]
        invariant CountLines(rt, State().counts, lines[i..]) == CountLines(rt, old(State()).counts, lines)
      {
        assert lines[i..][0] == lines[i] && lines[i..][1..] == lines[i + 1..];
        Consume(lines[i]);
      }
    }

    method Charge() returns (r: Option<nat>)
      ensures r == StreamTotal(State())
    {
      if !sawUsage {
        return None;
      }
      r := Some(Max(MINIMUM_CHARGE, inputTokens + outputTokens));
    }
  }
}

/** The streaming redactor as functions on values: one pass of one detector, the holdback point,
    and the two transitions `feed` and `flush`. */
module Redaction {
  import opened Basics
  import opened Detectors
  import opened Pieces

  datatype Stats = Stats(
    counts: map<string, nat>,
    charactersIn: nat,
    charactersOut: nat,
    maxHoldbackSeen: nat,
    suppressedCharacters: nat)

  const OVERFLOW_COUNTER := "overflow"

  function Record(counts: map<string, nat>, name: string, times: nat): map<string, nat> {
    if times == 0 then counts
    else counts[name := (if name in counts then counts[name] else 0) + times]
  }

  /** `runCharacter` is the class of characters an over-long candidate is made of. */
  datatype Config = Config(
    patterns: seq<Pattern>,
    placeholder: string,
    maxHoldback: int,
    runCharacter: char -> bool)
  {
    ghost predicate WellFormed() {
      forall i | 0 <= i < |patterns| :: patterns[i].WellFormed()
    }
  }

  datatype State = State(buffer: string, suppressing: bool, stats: Stats)

  const INITIAL := State("", false, Stats(map[], 0, 0, 0, 0))

  /** The next span a pass replaces: the first match at or after `from` that the validator accepts and
      that, while the tail is protected, stops short of the end of the text. */
  function NextSpan(p: Pattern, text: string, protectTail: bool, from: nat): (r: Option<Span>)
    requires p.WellFormed()
    ensures r.Some? ==> from <= r.value.start <= r.value.end <= |text|
    ensures r.Some? && protectTail ==> r.value.end < |text|
    decreases |text| + 1 - from
  {
    if from > |text| then None
    else
      match p.search(text, from)
      case None => None
      case Some(Span(start, matchEnd)) =>
        var end := p.ValidatedEnd(text, start, matchEnd);
        if end.None? || (protectTail && end.value == |text|) then NextSpan(p, text, protectTail, start + 1)
        else Some(Span(start, end.value))
  }

  /** Where the search resumes after a span: an empty one is stepped over. */
  function Resume(span: Span): nat {
    if span.end > span.start then span.end else span.start + 1
  }

  lemma FitsFrom(spans: Spans, from: nat, position: nat, n: nat)
    requires position <= from && Fits(spans, from, n)
    ensures Fits(spans, position, n)
  {
  }

  /** All spans one pass replaces, when the search starts at `from`. */
  function FindSpans(p: Pattern, text: string, protectTail: bool, from: nat): (r: Spans)
    requires p.WellFormed()
    ensures Fits(r, from, |text|)
    ensures protectTail && text != "" ==> Fits(r, from, |text| - 1)
    decreases |text| + 1 - from
  {
    match NextSpan(p, text, protectTail, from)
    case None => NoMore
    case Some(span) =>
      var rest := FindSpans(p, text, protectTail, Resume(span));
      FitsFrom(rest, Resume(span), span.end, |text|);
      FitsFrom(rest, Resume(span), span.end, if protectTail then |text| - 1 else |text|);
      More(span.start, span.end, rest)
  }

  /** One detector applied to `text`. */
  function Pass(p: Pattern, text: string, protectTail: bool): seq<Piece>
    requires p.WellFormed()
  {
    Cut(text, 0, FindSpans(p, text, protectTail, 0))
  }

  /** How many placeholders a list of pieces shows. */
  function HiddenCount(ps: seq<Piece>): nat {
    if |ps| == 0 then 0 else (if ps[0].Hidden? then 1 else 0) + HiddenCount(ps[1..])
  }

  /** All detectors in order, each on the result of the one before. */
  function Passes(ps: seq<Pattern>, placeholder: string, text: string, protectTail: bool): string
    requires forall i | 0 <= i < |ps| :: ps[i].WellFormed()
  {
    if |ps| == 0 then text
    else Passes(ps[1..], placeholder, Shown(Pass(ps[0], text, protectTail), placeholder), protectTail)
  }

  function PassCounts(ps: seq<Pattern>, placeholder: string, text: string, protectTail: bool,
                      counts: map<string, nat>): map<string, nat>
    requires forall i | 0 <= i < |ps| :: ps[i].WellFormed()
  {
    if |ps| == 0 then counts
    else
      var pieces := Pass(ps[0], text, protectTail);
      PassCounts(ps[1..], placeholder, Shown(pieces, placeholder), protectTail,
                 Record(counts, ps[0].name, HiddenCount(pieces)))
  }

  /** Start of the earliest hit that is partial or touches the end of a text of length `n`. */
  function EarliestUnsafe(hits: seq<Hit>, n: nat): (r: nat)
    ensures r <= n
    ensures forall i | 0 <= i < |hits| :: hits[i].partial || hits[i].end == n ==> r <= hits[i].start
    ensures r == n || exists i :: 0 <= i < |hits| && (hits[i].partial || hits[i].end == n) && hits[i].start == r
    decreases |hits|
  {
    if |hits| == 0 then n
    else
      var last := hits[|hits| - 1];
      var r := EarliestUnsafe(hits[..|hits| - 1], n);
      assert forall i | 0 <= i < |hits| - 1 :: hits[..|hits| - 1][i] == hits[i];
      if last.partial || last.end == n then Min(r, last.start) else r
  }

  /** `p` finds the words of `language`, and holds back at least what can still become one; it may hold back more. */
  ghost predicate Catches(p: Pattern, language: Language)
    requires 1 <= language.length
  {
    && Finds(p, language)
    && (forall text :: EarliestUnsafe(p.scan(text), |text|) <= EarliestUnsafe(language.Scan(text, 0), |text|))
  }

  function HoldbackIndex(ps: seq<Pattern>, text: string): (r: nat)
    ensures r <= |text|
    ensures forall i | 0 <= i < |ps| :: r <= EarliestUnsafe(ps[i].scan(text), |text|)
    ensures r == |text| || exists i :: 0 <= i < |ps| && EarliestUnsafe(ps[i].scan(text), |text|) == r
    decreases |ps|
  {
    if |ps| == 0 then |text|
    else
      var last := EarliestUnsafe(ps[|ps| - 1].scan(text), |text|);
      assert forall i | 0 <= i < |ps| - 1 :: ps[..|ps| - 1][i] == ps[i];
      Min(HoldbackIndex(ps[..|ps| - 1], text), last)
  }

  /** Length of the leading run of run characters. */
  function RunLength(cfg: Config, text: string): (r: nat)
    ensures r <= |text|
    ensures forall i | 0 <= i < r :: cfg.runCharacter(text[i])
    ensures r < |text| ==> !cfg.runCharacter(text[r])
  {
    if text == "" || !cfg.runCharacter(text[0]) then 0
    else
      var r := RunLength(cfg, text[1..]);
      assert forall i | 0 <= i < r :: text[1..][i] == text[i + 1];
      1 + r
  }

  /** Emit what precedes `split` and hold the rest, unless the rest outgrows the ceiling: then a placeholder
      is emitted for it and the run it belongs to is suppressed. */
  function ReleaseAt(cfg: Config, stats: Stats, redacted: string, split: nat): (State, string)
    requires split <= |redacted|
  {
    var held := redacted[split..];
    if |held| > cfg.maxHoldback then
      var emit := redacted[..split] + cfg.placeholder;
      (State("", true,
             stats.(counts := Record(stats.counts, OVERFLOW_COUNTER, 1),
                    charactersOut := stats.charactersOut + |emit|,
                    suppressedCharacters := stats.suppressedCharacters + |held|)),
       emit)
    else
      (State(held, false,
             stats.(charactersOut := stats.charactersOut + split,
                    maxHoldbackSeen := Max(stats.maxHoldbackSeen, |held|))),
       redacted[..split])
  }

  /** The redacted buffer split at the holdback point. */
  function Release(cfg: Config, stats: Stats, redacted: string): (State, string) {
    ReleaseAt(cfg, stats, redacted, HoldbackIndex(cfg.patterns, redacted))
  }

  /** The part of `feed` that runs once any suppressed prefix is gone. */
  function Absorb(cfg: Config, buffer: string, stats: Stats, text: string): (State, string)
    requires cfg.WellFormed()
  {
    Release(cfg,
            stats.(counts := PassCounts(cfg.patterns, cfg.placeholder, buffer + text, true, stats.counts)),
            Passes(cfg.patterns, cfg.placeholder, buffer + text, true))
  }

  /** Count the characters that arrive, and drop those that continue a suppressed run. */
  function Arrive(cfg: Config, st: State, text: string): (State, string) {
    var stats := st.stats.(charactersIn := st.stats.charactersIn + |text|);
    if !st.suppressing then (State(st.buffer, false, stats), text)
    else
      var consumed := RunLength(cfg, text);
      (State(st.buffer, consumed == |text|, stats.(suppressedCharacters := stats.suppressedCharacters + consumed)),
       text[consumed..])
  }

  function Feed(cfg: Config, st: State, text: string): (State, string)
    requires cfg.WellFormed()
  {
    if text == "" then (st, "")
    else
      var (arrived, rest) := Arrive(cfg, st, text);
      if rest == "" then (arrived, "") else Absorb(cfg, arrived.buffer, arrived.stats, rest)
  }

  function Flush(cfg: Config, st: State): (State, string)
    requires cfg.WellFormed()
  {
    var remaining := Passes(cfg.patterns, cfg.placeholder, st.buffer, false);
    (State("", false,
           st.stats.(counts := PassCounts(cfg.patterns, cfg.placeholder, st.buffer, false, st.stats.counts),
                     charactersOut := st.stats.charactersOut + |remaining|)),
     remaining)
  }

  /** The state after feeding every chunk, and the text emitted so far. */
  function FeedAll(cfg: Config, st: State, chunks: seq<string>): (State, string)
    requires cfg.WellFormed()
    decreases |chunks|
  {
    if |chunks| == 0 then (st, "")
    else
      var before := FeedAll(cfg, st, chunks[..|chunks| - 1]);
      var last := Feed(cfg, before.0, chunks[|chunks| - 1]);
      (last.0, before.1 + last.1)
  }

  /** A whole stream: every chunk, then the flush. */
  function Process(cfg: Config, st: State, chunks: seq<string>): string
    requires cfg.WellFormed()
  {
    var fed := FeedAll(cfg, st, chunks);
    fed.1 + Flush(cfg, fed.0).1
  }
}

/** The redactor object: its fields change as a stream is fed, and every method computes the
    corresponding function of Redaction on them. */
module StreamRedactors {
  import opened Basics
  import opened Detectors
  import opened Pieces
  import opened Redaction

  /** The longest match any detector declares. */
  function LongestMatch(patterns: seq<Pattern>): (r: nat)
    requires |patterns| > 0
    ensures forall i | 0 <= i < |patterns| :: patterns[i].maxLength <= r
    ensures exists i :: 0 <= i < |patterns| && patterns[i].maxLength == r
  {
    if |patterns| == 1 then patterns[0].maxLength
    else
      var rest := LongestMatch(patterns[1..]);
      assert forall i | 1 <= i < |patterns| :: patterns[i] == patterns[1..][i - 1];
      Max(patterns[0].maxLength, rest)
  }

  lemma RecordOnce(counts: map<string, nat>, name: string, times: nat)
    ensures Record(Record(counts, name, times), name, 1) == Record(counts, name, times + 1)
  {
  }

  lemma {:induction false} HiddenCountAppend(a: seq<Piece>, b: seq<Piece>)
    ensures HiddenCount(a + b) == HiddenCount(a) + HiddenCount(b)
  {
    if |a| == 0 {
      AppendNil(b);
    } else {
      HiddenCountAppend(a[1..], b);
      AppendUncons(a, b);
    }
  }

  lemma {:induction false} KeepAllHidesNothing(text: string)
    ensures HiddenCount(KeepAll(text)) == 0
  {
    if |text| > 0 {
      KeepAllHidesNothing(text[1..]);
    }
  }

  lemma ReplacedHidesOne(before: string, span: string, rest: seq<Piece>)
    ensures HiddenCount(Replaced(before, span, rest)) == 1 + HiddenCount(rest)
  {
    var kept, hidden := KeepAll(before), [Hidden(span)];
    HiddenCountAppend(kept + hidden, rest);
    HiddenCountAppend(kept, hidden);
    KeepAllHidesNothing(before);
    assert HiddenCount(hidden) == 1 by { assert |hidden[1..]| == 0; }
  }

  /** `done` and the spans from `position` on make the whole pass, in text and in placeholder count. */
  ghost predicate Remains(text: string, placeholder: string, spans: Spans, done: string, times: nat,
                          position: nat, rest: Spans)
    requires position <= |text| && Fits(rest, position, |text|) && Fits(spans, 0, |text|)
  {
    && done + CutText(placeholder, text, position, rest) == CutText(placeholder, text, 0, spans)
    && times + HiddenCount(Cut(text, position, rest)) == HiddenCount(Cut(text, 0, spans))
  }

  lemma RemainsAll(text: string, placeholder: string, spans: Spans)
    requires Fits(spans, 0, |text|)
    ensures Remains(text, placeholder, spans, "", 0, 0, spans)
  {
    AppendNil(CutText(placeholder, text, 0, spans));
  }

  lemma RemainsAfterSpan(text: string, placeholder: string, spans: Spans, done: string, times: nat,
                         position: nat, rest: Spans)
    requires position <= |text| && Fits(rest, position, |text|) && Fits(spans, 0, |text|) && rest.More?
    requires Remains(text, placeholder, spans, done, times, position, rest)
    ensures Remains(text, placeholder, spans, done + (text[position..rest.start] + placeholder), times + 1, rest.end, rest.rest)
  {
    ReplacedHidesOne(text[position..rest.start], text[rest.start..rest.end], Cut(text, rest.end, rest.rest));
    Associative(done, text[position..rest.start] + placeholder, CutText(placeholder, text, rest.end, rest.rest));
  }

  lemma RemainsNothing(text: string, placeholder: string, spans: Spans, done: string, times: nat, position: nat)
    requires position <= |text| && Fits(spans, 0, |text|)
    requires Remains(text, placeholder, spans, done, times, position, NoMore)
    ensures done + text[position..] == Shown(Cut(text, 0, spans), placeholder)
    ensures times == HiddenCount(Cut(text, 0, spans))
  {
    KeepAllHidesNothing(text[position..]);
    CutShows(placeholder, text, 0, spans);
  }

  class StreamRedactor {
    const cfg: Config
    var buffer: string
    var suppressing: bool
    var stats: Stats

    function State(): Redaction.State
      reads this
    {
      Redaction.State(buffer, suppressing, stats)
    }

    /** Without a ceiling, or with a ceiling of zero, the longest declared match plus eight is used. */
    constructor (patterns: seq<Pattern>, placeholder: string, maxHoldback: Option<int>, runCharacter: char -> bool)
      requires forall i | 0 <= i < |patterns| :: patterns[i].WellFormed()
      requires maxHoldback in {None, Some(0)} ==> |patterns| > 0
      ensures cfg.WellFormed() && State() == INITIAL
      ensures cfg.patterns == patterns && cfg.placeholder == placeholder && cfg.runCharacter == runCharacter
      ensures cfg.maxHoldback == match maxHoldback
                                 case None => LongestMatch(patterns) + 8
                                 case Some(n) => if n == 0 then LongestMatch(patterns) + 8 else n
    {
      cfg := Config(patterns, placeholder,
                    if maxHoldback in {None, Some(0)} then LongestMatch(patterns) + 8 else maxHoldback.value,
                    runCharacter);
      buffer, suppressing, stats := "", false, INITIAL.stats;
    }

    static method ValidatedEnd(p: Pattern, text: string, start: nat, matchEnd: nat) returns (r: Option<nat>)
      requires p.WellFormed() && start <= matchEnd <= |text|
      ensures r == p.ValidatedEnd(text, start, matchEnd)
    {
      if p.validate.None? {
        return Some(matchEnd);
      }
      var floor := start + Max(p.validateMinLength, 1);
      var end: int := matchEnd;
      while end >= floor
        invariant end <= |text|
        invariant p.BackOff(text, start, end) == p.BackOff(text, start, matchEnd)
        decreases end
      {
        var candidate := p.matchAt(text, start, end);
        if candidate.None? {
          return None;
        }
        if p.Accepts(text[start..candidate.value]) {
          return candidate;
        }
        end := candidate.value as int - 1;
      }
      r := None;
    }

    /** The search of the inner loop: skip matches the validator rejects, and a protected tail, one character
        at a time. */
    static method FindReplaceable(p: Pattern, text: string, protectTail: bool, from: nat) returns (r: Option<Span>)
      requires p.WellFormed()
      ensures r == NextSpan(p, text, protectTail, from)
    {
      var searchFrom := from;
      while searchFrom <= |text|
        invariant NextSpan(p, text, protectTail, searchFrom) == NextSpan(p, text, protectTail, from)
        decreases |text| + 1 - searchFrom
      {
        var found := p.search(text, searchFrom);
        if found.None? {
          return None;
        }
        var end := ValidatedEnd(p, text, found.value.start, found.value.end);
        if end.Some? && !(protectTail && end.value == |text|) {
          return Some(Span(found.value.start, end.value));
        }
        searchFrom := found.value.start + 1;
      }
      r := None;
    }

    /** The next span to replace, and with it the list of all spans from there on. */
    static method FindSpan(p: Pattern, text: string, protectTail: bool, from: nat) returns (r: Option<Span>, ghost rest: Spans)
      requires p.WellFormed()
      ensures r == NextSpan(p, text, protectTail, from) && rest == FindSpans(p, text, protectTail, from)
      ensures r.None? <==> rest.NoMore?
      ensures r.Some? ==> from <= rest.start == r.value.start && rest.end == r.value.end <= |text|
                          && rest.rest == FindSpans(p, text, protectTail, Resume(r.value))
    {
      r := FindReplaceable(p, text, protectTail, from);
      rest := FindSpans(p, text, protectTail, from);
    }

    method RedactOne(p: Pattern, text: string, protectTail: bool) returns (r: string)
      requires p.WellFormed()
      modifies this`stats
      ensures r == Shown(Pass(p, text, protectTail), cfg.placeholder)
      ensures stats == old(stats).(counts := Record(old(stats.counts), p.name, HiddenCount(Pass(p, text, protectTail))))
    {
      r := "";
      var position: nat := 0;
      var found: Option<Span>;
      ghost var rest: Spans;
      found, rest := FindSpan(p, text, protectTail, 0);
      ghost var spans, times: nat := rest, 0;
      RemainsAll(text, cfg.placeholder, spans);
      while found.Some?
        invariant position <= |text| && Fits(rest, position, |text|)
        invariant found.None? <==> rest.NoMore?
        invariant found.Some? ==> rest.start == found.value.start && rest.end == found.value.end
                                  && rest.rest == FindSpans(p, text, protectTail, Resume(found.value))
        invariant Remains(text, cfg.placeholder, spans, r, times, position, rest)
        invariant stats == old(stats).(counts := Record(old(stats.counts), p.name, times))
        decreases rest
      {
        var Span(start, end) := found.value;
        RemainsAfterSpan(text, cfg.placeholder, spans, r, times, position, rest);
        RecordOnce(old(stats.counts), p.name, times);
        r := r + (text[position..start] + cfg.placeholder);
        stats := stats.(counts := Record(stats.counts, p.name, 1));
        times, position := times + 1, end;
        found, rest := FindSpan(p, text, protectTail, Resume(found.value));
      }
      RemainsNothing(text, cfg.placeholder, spans, r, times, position);
      r := r + text[position..];
    }

    method Redact(text: string, protectTail: bool) returns (r: string)
      requires cfg.WellFormed()
      modifies this`stats
      ensures r == Passes(cfg.patterns, cfg.placeholder, text, protectTail)
      ensures stats == old(stats).(counts := PassCounts(cfg.patterns, cfg.placeholder, text, protectTail, old(stats.counts)))
    {
      r := text;
      for i := 0 to |cfg.patterns|
        invariant Passes(cfg.patterns[i..], cfg.placeholder, r, protectTail)
               == Passes(cfg.patterns, cfg.placeholder, text, protectTail)
        invariant PassCounts(cfg.patterns[i..], cfg.placeholder, r, protectTail, stats.counts)
               == PassCounts(cfg.patterns, cfg.placeholder, text, protectTail, old(stats.counts))
        invariant stats == old(stats).(counts := stats.counts)
      {
        assert cfg.patterns[i..][0] == cfg.patterns[i] && cfg.patterns[i..][1..] == cfg.patterns[i + 1..];
        r := RedactOne(cfg.patterns[i], r, protectTail);
      }
    }

    /** The earliest hit that is partial or touches the end, if it starts before `bound`. */
    static method EarliestOf(hits: seq<Hit>, n: nat, bound: nat) returns (earliest: nat)
      requires bound <= n
      ensures earliest == Min(bound, EarliestUnsafe(hits, n))
    {
      earliest := bound;
      for j := 0 to |hits|
        invariant earliest == Min(bound, EarliestUnsafe(hits[..j], n))
      {
        assert hits[..j + 1][..j] == hits[..j];
        if hits[j].partial || hits[j].end == n {
          earliest := Min(earliest, hits[j].start);
        }
      }
      assert hits[..|hits|] == hits;
    }

    method FindHoldback(text: string) returns (earliest: nat)
      requires cfg.WellFormed()
      ensures earliest == HoldbackIndex(cfg.patterns, text)
    {
      earliest := |text|;
      for i := 0 to |cfg.patterns|
        invariant earliest == HoldbackIndex(cfg.patterns[..i], text)
      {
        assert cfg.patterns[..i + 1][..i] == cfg.patterns[..i];
        earliest := EarliestOf(cfg.patterns[i].scan(text), |text|, earliest);
      }
      assert cfg.patterns[..|cfg.patterns|] == cfg.patterns;
    }

    method DropSuppressedPrefix(text: string) returns (rest: string)
      requires suppressing
      modifies this`suppressing, this`stats
      ensures var consumed := RunLength(cfg, text);
              && rest == text[consumed..]
              && stats == old(stats).(suppressedCharacters := old(stats.suppressedCharacters) + consumed)
              && suppressing == (consumed == |text|)
    {
      var consumed := 0;
      while consumed < |text| && cfg.runCharacter(text[consumed])
        invariant consumed <= |text|
        invariant RunLength(cfg, text) == consumed + RunLength(cfg, text[consumed..])
      {
        assert text[consumed..][1..] == text[consumed + 1..];
        consumed := consumed + 1;
      }
      stats := stats.(suppressedCharacters := stats.suppressedCharacters + consumed);
      if consumed == |text| {
        return "";
      }
      suppressing := false;
      rest := text[consumed..];
    }

    method FailClosed() returns (shown: string)
      modifies this
      ensures shown == cfg.placeholder && buffer == "" && suppressing
      ensures stats == old(stats).(counts := Record(old(stats.counts), OVERFLOW_COUNTER, 1),
                                   suppressedCharacters := old(stats.suppressedCharacters) + |old(buffer)|)
    {
      stats := stats.(counts := Record(stats.counts, OVERFLOW_COUNTER, 1),
                      suppressedCharacters := stats.suppressedCharacters + |buffer|);
      buffer := "";
      suppressing := true;
      shown := cfg.placeholder;
    }

    /** Split the redacted buffer at the holdback point, and enforce the ceiling. */
    method EmitSettled() returns (emit: string)
      requires cfg.WellFormed() && !suppressing
      modifies this
      ensures (State(), emit) == Release(cfg, old(stats), old(buffer))
    {
      var split := FindHoldback(buffer);
      emit := EmitBefore(split);
    }

    method EmitBefore(split: nat) returns (emit: string)
      requires split <= |buffer| && !suppressing
      modifies this
      ensures (State(), emit) == ReleaseAt(cfg, old(stats), old(buffer), split)
    {
      emit, buffer := buffer[..split], buffer[split..];
      if |buffer| > cfg.maxHoldback {
        var shown := FailClosed();
        emit := emit + shown;
      }
      Tally(|emit|);
    }

    method Tally(emitted: nat)
      modifies this`stats
      ensures stats == old(stats).(maxHoldbackSeen := Max(old(stats.maxHoldbackSeen), |buffer|),
                                   charactersOut := old(stats.charactersOut) + emitted)
    {
      stats := stats.(maxHoldbackSeen := Max(stats.maxHoldbackSeen, |buffer|),
                      charactersOut := stats.charactersOut + emitted);
    }

    method Absorb(text: string) returns (emit: string)
      requires cfg.WellFormed() && !suppressing
      modifies this
      ensures (State(), emit) == Redaction.Absorb(cfg, old(buffer), old(stats), text)
    {
      buffer := Redact(buffer + text, true);
      emit := EmitSettled();
    }

    method Feed(text: string) returns (emit: string)
      requires cfg.WellFormed()
      modifies this
      ensures (State(), emit) == Redaction.Feed(cfg, old(State()), text)
    {
      if text == "" {
        return "";
      }
      var rest := DropContinuation(text);
      if rest == "" {
        return "";
      }
      emit := Absorb(rest);
    }

    method DropContinuation(text: string) returns (rest: string)
      modifies this`suppressing, this`stats
      ensures (State(), rest) == Arrive(cfg, old(State()), text)
    {
      stats := stats.(charactersIn := stats.charactersIn + |text|);
      rest := text;
      if suppressing {
        rest := DropSuppressedPrefix(text);
      }
    }

    method Flush() returns (remaining: string)
      requires cfg.WellFormed()
      modifies this
      ensures (State(), remaining) == Redaction.Flush(cfg, old(State()))
    {
      remaining := Redact(buffer, false);
      buffer := "";
      suppressing := false;
      stats := stats.(charactersOut := stats.charactersOut + |remaining|);
    }

    /** A whole stream. */
    method Process(chunks: seq<string>) returns (output: string)
      requires cfg.WellFormed()
      modifies this
      ensures output == Redaction.Process(cfg, old(State()), chunks)
    {
      output := "";
      for i := 0 to |chunks|
        invariant (State(), output) == FeedAll(cfg, old(State()), chunks[..i])
      {
        assert chunks[..i + 1][..i] == chunks[..i];
        var emitted := Feed(chunks[i]);
        output := output + emitted;
      }
      assert chunks[..|chunks|] == chunks;
      var remaining := Flush();
      output := output + remaining;
    }
  }
}

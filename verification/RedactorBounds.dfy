/** What the redactor's counters mean, and the ceiling on what it holds. */
module RedactorBounds {
  import opened Basics
  import opened Detectors
  import opened Pieces
  import opened Redaction

  lemma AbsorbBounded(cfg: Config, buffer: string, stats: Stats, text: string)
    requires cfg.WellFormed() && 0 <= cfg.maxHoldback && stats.maxHoldbackSeen <= cfg.maxHoldback
    ensures var (st, out) := Absorb(cfg, buffer, stats, text);
            && |st.buffer| <= cfg.maxHoldback && st.stats.maxHoldbackSeen <= cfg.maxHoldback
            && st.stats.charactersIn == stats.charactersIn
            && st.stats.charactersOut == stats.charactersOut + |out|
  {
  }

  lemma FeedBounded(cfg: Config, st: State, text: string)
    requires cfg.WellFormed() && |st.buffer| <= cfg.maxHoldback && st.stats.maxHoldbackSeen <= cfg.maxHoldback
    ensures var (after, out) := Feed(cfg, st, text);
            && |after.buffer| <= cfg.maxHoldback && after.stats.maxHoldbackSeen <= cfg.maxHoldback
            && after.stats.charactersIn == st.stats.charactersIn + |text|
            && after.stats.charactersOut == st.stats.charactersOut + |out|
  {
    var (arrived, rest) := Arrive(cfg, st, text);
    if rest != "" {
      AbsorbBounded(cfg, arrived.buffer, arrived.stats, rest);
    }
  }

  /** However long the stream: the held text never exceeds the ceiling, and the counters are the lengths of
      what came in and what went out. */
  lemma {:induction false} HeldTextIsBounded(cfg: Config, chunks: seq<string>)
    requires cfg.WellFormed() && 0 <= cfg.maxHoldback
    ensures var (st, out) := FeedAll(cfg, INITIAL, chunks);
            && |st.buffer| <= cfg.maxHoldback && st.stats.maxHoldbackSeen <= cfg.maxHoldback
            && st.stats.charactersIn == |Concat(chunks)|
            && st.stats.charactersOut == |out|
    decreases |chunks|
  {
    if |chunks| > 0 {
      var k := |chunks| - 1;
      HeldTextIsBounded(cfg, chunks[..k]);
      FeedBounded(cfg, FeedAll(cfg, INITIAL, chunks[..k]).0, chunks[k]);
      ConcatLast(chunks);
    }
  }

  // ---- What was held --------------------------------------------------------------------------

  /** The most that was held after any of the chunks. */
  function MostHeld(cfg: Config, chunks: seq<string>): nat
    requires cfg.WellFormed()
    decreases |chunks|
  {
    if |chunks| == 0 then 0
    else Max(MostHeld(cfg, chunks[..|chunks| - 1]), |FeedAll(cfg, INITIAL, chunks).0.buffer|)
  }

  lemma FeedRecordsHeld(cfg: Config, st: State, text: string)
    requires cfg.WellFormed() && |st.buffer| <= st.stats.maxHoldbackSeen
    ensures var after := Feed(cfg, st, text).0;
            after.stats.maxHoldbackSeen == Max(st.stats.maxHoldbackSeen, |after.buffer|)
  {
  }

  /** The counter of what was held is the most that was held. */
  lemma {:induction false} MostHeldIsCounted(cfg: Config, chunks: seq<string>)
    requires cfg.WellFormed()
    ensures var st := FeedAll(cfg, INITIAL, chunks).0;
            st.stats.maxHoldbackSeen == MostHeld(cfg, chunks) && |st.buffer| <= st.stats.maxHoldbackSeen
    decreases |chunks|
  {
    if |chunks| > 0 {
      var k := |chunks| - 1;
      MostHeldIsCounted(cfg, chunks[..k]);
      FeedRecordsHeld(cfg, FeedAll(cfg, INITIAL, chunks[..k]).0, chunks[k]);
    }
  }

  // ---- What was replaced ----------------------------------------------------------------------

  function CountOf(counts: map<string, nat>, name: string): nat {
    if name in counts then counts[name] else 0
  }

  function SpanCount(spans: Spans): nat {
    match spans
    case NoMore => 0
    case More(_, _, rest) => 1 + SpanCount(rest)
  }

  /** How often the detectors of a name replace something in a text. */
  function Replacements(ps: seq<Pattern>, placeholder: string, text: string, protectTail: bool, name: string): nat
    requires forall i | 0 <= i < |ps| :: ps[i].WellFormed()
    decreases |ps|
  {
    if |ps| == 0 then 0
    else
      (if ps[0].name == name then SpanCount(FindSpans(ps[0], text, protectTail, 0)) else 0)
      + Replacements(ps[1..], placeholder, Shown(Pass(ps[0], text, protectTail), placeholder), protectTail, name)
  }

  lemma {:induction false} HiddenAppend(a: seq<Piece>, b: seq<Piece>)
    ensures HiddenCount(a + b) == HiddenCount(a) + HiddenCount(b)
    decreases |a|
  {
    if |a| == 0 {
      AppendNil(b);
    } else {
      HiddenAppend(a[1..], b);
      AppendUncons(a, b);
    }
  }

  lemma {:induction false} NoneHidden(text: string)
    ensures HiddenCount(KeepAll(text)) == 0
    decreases |text|
  {
    if |text| > 0 {
      NoneHidden(text[1..]);
      AppendUncons([Kept(text[0])], KeepAll(text[1..]));
      AppendNil(KeepAll(text[1..]));
    }
  }

  /** A pass shows one placeholder for each span. */
  lemma {:induction false} OneForEachSpan(text: string, position: nat, spans: Spans)
    requires position <= |text| && Fits(spans, position, |text|)
    ensures HiddenCount(Cut(text, position, spans)) == SpanCount(spans)
    decreases spans
  {
    match spans
    case NoMore => NoneHidden(text[position..]);
    case More(start, end, rest) =>
      OneForEachSpan(text, end, rest);
      NoneHidden(text[position..start]);
      var hidden := [Hidden(text[start..end])];
      assert hidden[1..] == [];
      HiddenAppend(KeepAll(text[position..start]), hidden);
      HiddenAppend(KeepAll(text[position..start]) + hidden, Cut(text, end, rest));
  }

  /** The passes add to the count of a name exactly the replacements of its detectors. */
  lemma {:induction false} PassesAreCounted(ps: seq<Pattern>, placeholder: string, text: string, protectTail: bool,
                                            counts: map<string, nat>, name: string)
    requires forall i | 0 <= i < |ps| :: ps[i].WellFormed()
    ensures CountOf(PassCounts(ps, placeholder, text, protectTail, counts), name)
         == CountOf(counts, name) + Replacements(ps, placeholder, text, protectTail, name)
    decreases |ps|
  {
    if |ps| > 0 {
      var pieces := Pass(ps[0], text, protectTail);
      OneForEachSpan(text, 0, FindSpans(ps[0], text, protectTail, 0));
      PassesAreCounted(ps[1..], placeholder, Shown(pieces, placeholder), protectTail,
                       Record(counts, ps[0].name, HiddenCount(pieces)), name);
    }
  }

  /** What a state and one chunk replace: in the buffer with what of the chunk is not suppressed. */
  lemma FeedIsCounted(cfg: Config, st: State, text: string, name: string)
    requires cfg.WellFormed() && !st.suppressing && text != "" && name != OVERFLOW_COUNTER
    ensures CountOf(Feed(cfg, st, text).0.stats.counts, name)
         == CountOf(st.stats.counts, name) + Replacements(cfg.patterns, cfg.placeholder, st.buffer + text, true, name)
  {
    PassesAreCounted(cfg.patterns, cfg.placeholder, st.buffer + text, true, st.stats.counts, name);
  }

  /** And what the flush replaces. */
  lemma FlushIsCounted(cfg: Config, st: State, name: string)
    requires cfg.WellFormed()
    ensures var (after, shown) := Flush(cfg, st);
            && CountOf(after.stats.counts, name)
               == CountOf(st.stats.counts, name) + Replacements(cfg.patterns, cfg.placeholder, st.buffer, false, name)
            && after.stats.charactersOut == st.stats.charactersOut + |shown|
            && after.buffer == "" && !after.suppressing
            && after.stats.suppressedCharacters == st.stats.suppressedCharacters
            && after.stats.charactersIn == st.stats.charactersIn
  {
    PassesAreCounted(cfg.patterns, cfg.placeholder, st.buffer, false, st.stats.counts, name);
  }
}

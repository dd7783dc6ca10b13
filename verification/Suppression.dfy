/** What the redactor does with a candidate that outgrows the ceiling: the candidate and the rest of its run are
    shown as one placeholder, however the run is cut, and the stream goes on behind it as if it had begun there. */
module Suppression {
  import opened Basics
  import opened Detectors
  import opened Pieces
  import opened Redaction

  /** A text made of run characters only. */
  predicate IsRun(cfg: Config, text: string) {
    forall i | 0 <= i < |text| :: cfg.runCharacter(text[i])
  }

  /** A text that begins with another character. */
  predicate EndsRun(cfg: Config, text: string) {
    |text| > 0 && !cfg.runCharacter(text[0])
  }

  // ---- Statistics decide nothing --------------------------------------------------------------

  /** The same text and mode; the statistics may differ. */
  predicate Alike(a: State, b: State) {
    a.buffer == b.buffer && a.suppressing == b.suppressing
  }

  lemma FeedAlike(cfg: Config, a: State, b: State, text: string)
    requires cfg.WellFormed() && Alike(a, b)
    ensures Alike(Feed(cfg, a, text).0, Feed(cfg, b, text).0) && Feed(cfg, a, text).1 == Feed(cfg, b, text).1
  {
    var (x, rest) := Arrive(cfg, a, text);
    var (y, rest') := Arrive(cfg, b, text);
    assert rest == rest' && Alike(x, y);
  }

  lemma {:induction false} FeedAllAlike(cfg: Config, a: State, b: State, chunks: seq<string>)
    requires cfg.WellFormed() && Alike(a, b)
    ensures Alike(FeedAll(cfg, a, chunks).0, FeedAll(cfg, b, chunks).0)
    ensures FeedAll(cfg, a, chunks).1 == FeedAll(cfg, b, chunks).1
    decreases |chunks|
  {
    if |chunks| > 0 {
      var k := |chunks| - 1;
      FeedAllAlike(cfg, a, b, chunks[..k]);
      FeedAlike(cfg, FeedAll(cfg, a, chunks[..k]).0, FeedAll(cfg, b, chunks[..k]).0, chunks[k]);
    }
  }

  lemma FlushAlike(cfg: Config, a: State, b: State)
    requires cfg.WellFormed() && a.buffer == b.buffer
    ensures Flush(cfg, a).1 == Flush(cfg, b).1
  {
  }

  lemma {:induction false} FeedAllAppend(cfg: Config, st: State, a: seq<string>, b: seq<string>)
    requires cfg.WellFormed()
    ensures var (mid, first) := FeedAll(cfg, st, a);
            var (end, second) := FeedAll(cfg, mid, b);
            FeedAll(cfg, st, a + b) == (end, first + second)
    decreases |b|
  {
    if |b| == 0 {
      AppendNil(a);
      AppendNil(FeedAll(cfg, st, a).1);
    } else {
      var k := |b| - 1;
      FeedAllAppend(cfg, st, a, b[..k]);
      LastOfAppend(a, b);
      var (mid, first) := FeedAll(cfg, st, a);
      var (before, second) := FeedAll(cfg, mid, b[..k]);
      Associative(first, second, Feed(cfg, before, b[k]).1);
    }
  }

  lemma FeedOne(cfg: Config, st: State, text: string)
    requires cfg.WellFormed()
    ensures FeedAll(cfg, st, [text]) == Feed(cfg, st, text)
  {
    assert [text][..0] == [];
    AppendNil(Feed(cfg, st, text).1);
  }

  // ---- Inside a suppressed run ----------------------------------------------------------------

  /** The leading run ends where the run ends. */
  lemma {:induction false} RunEnds(cfg: Config, run: string, rest: string)
    requires IsRun(cfg, run) && (rest == "" || EndsRun(cfg, rest))
    ensures RunLength(cfg, run + rest) == |run|
    decreases |run|
  {
    if run == "" {
      AppendNil(rest);
    } else {
      RunEnds(cfg, run[1..], rest);
      AppendUncons(run, rest);
    }
  }

  /** A piece of the run shows nothing and leaves the redactor as it is, but for the count of what was dropped. */
  lemma RunIsDropped(cfg: Config, st: State, run: string)
    requires cfg.WellFormed() && st.suppressing && IsRun(cfg, run)
    ensures var (after, shown) := Feed(cfg, st, run);
            && shown == "" && Alike(after, st)
            && after.stats.suppressedCharacters == st.stats.suppressedCharacters + |run|
  {
    RunEnds(cfg, run, "");
    AppendNil(run);
  }

  /** From inside a run, the first character that is not of the run is where the stream resumes. */
  lemma RunThenRest(cfg: Config, st: State, run: string, rest: string)
    requires cfg.WellFormed() && st.suppressing && IsRun(cfg, run) && EndsRun(cfg, rest)
    ensures var (after, shown) := Feed(cfg, st, run + rest);
            var (resumed, expected) := Feed(cfg, st.(suppressing := false), rest);
            && shown == expected && Alike(after, resumed)
            && after.stats.suppressedCharacters >= st.stats.suppressedCharacters + |run|
  {
    RunEnds(cfg, run, rest);
    var (arrived, left) := Arrive(cfg, st, run + rest);
    assert left == rest;
  }

  /** However it is cut, a run that is being suppressed shows nothing. */
  lemma {:induction false} SuppressedRunIsSilent(cfg: Config, st: State, chunks: seq<string>)
    requires cfg.WellFormed() && st.suppressing && IsRun(cfg, Concat(chunks))
    ensures var (after, shown) := FeedAll(cfg, st, chunks);
            && shown == "" && Alike(after, st)
            && after.stats.suppressedCharacters == st.stats.suppressedCharacters + |Concat(chunks)|
    decreases |chunks|
  {
    if |chunks| > 0 {
      var k := |chunks| - 1;
      ConcatLast(chunks);
      RunSplits(cfg, Concat(chunks[..k]), chunks[k]);
      SuppressedRunIsSilent(cfg, st, chunks[..k]);
      RunIsDropped(cfg, FeedAll(cfg, st, chunks[..k]).0, chunks[k]);
    }
  }

  lemma RunSplits(cfg: Config, a: string, b: string)
    requires IsRun(cfg, a + b)
    ensures IsRun(cfg, a) && IsRun(cfg, b)
  {
    assert forall i | 0 <= i < |a| :: a[i] == (a + b)[i];
    assert forall i | 0 <= i < |b| :: b[i] == (a + b)[|a| + i];
  }

  /** Main result: however the rest of a suppressed run is cut, and however far its last piece reaches beyond it,
      the stream shows what it would show if it resumed behind the run. */
  lemma RunEndsAnywhere(cfg: Config, st: State, runs: seq<string>, end: string, rest: string, more: seq<string>)
    requires cfg.WellFormed() && st.suppressing && IsRun(cfg, Concat(runs)) && IsRun(cfg, end) && EndsRun(cfg, rest)
    ensures var (after, shown) := FeedAll(cfg, st, runs + ([end + rest] + more));
            var (resumed, expected) := FeedAll(cfg, st.(suppressing := false), [rest] + more);
            shown == expected && Alike(after, resumed)
  {
    var inside := FeedAll(cfg, st, runs).0;
    SuppressedRunIsSilent(cfg, st, runs);
    FeedAllAppend(cfg, st, runs, [end + rest] + more);
    FeedAllAppend(cfg, inside, [end + rest], more);
    FeedAllAppend(cfg, st.(suppressing := false), [rest], more);
    FeedOne(cfg, inside, end + rest);
    FeedOne(cfg, st.(suppressing := false), rest);
    RunThenRest(cfg, inside, end, rest);
    FeedAlike(cfg, inside.(suppressing := false), st.(suppressing := false), rest);
    FeedAllAlike(cfg, Feed(cfg, inside, end + rest).0, Feed(cfg, st.(suppressing := false), rest).0, more);
  }

  // ---- The ceiling ----------------------------------------------------------------------------

  /** The same redactor with a ceiling of `n`. */
  function Raised(cfg: Config, n: int): (r: Config)
    ensures cfg.WellFormed() ==> r.WellFormed()
  {
    cfg.(maxHoldback := n)
  }

  /** What a lower ceiling makes of what would be held and released. */
  ghost predicate CutDown(cfg: Config, free: State, released: string, after: State, shown: string) {
    if |free.buffer| <= cfg.maxHoldback then after == free && shown == released
    else
      && shown == released + cfg.placeholder && after.buffer == "" && after.suppressing
      && after.stats.counts == Record(free.stats.counts, OVERFLOW_COUNTER, 1)
      && after.stats.suppressedCharacters == free.stats.suppressedCharacters + |free.buffer|
      && after.stats.charactersOut == free.stats.charactersOut + |cfg.placeholder|
  }

  lemma ReleaseCutDown(cfg: Config, n: int, stats: Stats, redacted: string, split: nat)
    requires cfg.maxHoldback <= n && split <= |redacted| && |redacted[split..]| <= n
    ensures var (free, released) := ReleaseAt(Raised(cfg, n), stats, redacted, split);
            var (after, shown) := ReleaseAt(cfg, stats, redacted, split);
            CutDown(cfg, free, released, after, shown)
  {
  }

  lemma AbsorbCutDown(cfg: Config, n: int, buffer: string, stats: Stats, text: string)
    requires cfg.WellFormed() && cfg.maxHoldback <= n && !Absorb(Raised(cfg, n), buffer, stats, text).0.suppressing
    ensures var (free, released) := Absorb(Raised(cfg, n), buffer, stats, text);
            var (after, shown) := Absorb(cfg, buffer, stats, text);
            CutDown(cfg, free, released, after, shown)
  {
    var redacted := Passes(cfg.patterns, cfg.placeholder, buffer + text, true);
    var counts := PassCounts(cfg.patterns, cfg.placeholder, buffer + text, true, stats.counts);
    ReleaseCutDown(cfg, n, stats.(counts := counts), redacted, HoldbackIndex(cfg.patterns, redacted));
  }

  /** The ceiling acts exactly when it is exceeded: then what would have been held is shown as one placeholder
      and counted, and its run is suppressed; otherwise a redactor with a higher ceiling does the same. */
  lemma CeilingActsWhenExceeded(cfg: Config, n: int, st: State, text: string)
    requires cfg.WellFormed() && cfg.maxHoldback <= n && text != ""
    requires !Feed(Raised(cfg, n), st, text).0.suppressing
    ensures var (free, released) := Feed(Raised(cfg, n), st, text);
            var (after, shown) := Feed(cfg, st, text);
            CutDown(cfg, free, released, after, shown)
  {
    var (arrived, rest) := Arrive(cfg, st, text);
    RaisedArrives(cfg, n, st, text);
    AbsorbCutDown(cfg, n, arrived.buffer, arrived.stats, rest);
  }

  lemma RaisedArrives(cfg: Config, n: int, st: State, text: string)
    ensures Arrive(Raised(cfg, n), st, text) == Arrive(cfg, st, text)
  {
    RaisedRun(cfg, n, text);
  }

  lemma {:induction false} RaisedRun(cfg: Config, n: int, text: string)
    ensures RunLength(Raised(cfg, n), text) == RunLength(cfg, text)
    decreases |text|
  {
    if text != "" {
      RaisedRun(cfg, n, text[1..]);
    }
  }

  // ---- From the ceiling to the end of the run ---------------------------------------------------

  /** The detectors leave every beginning of the text alone and hold all of it. */
  ghost predicate HeldThroughout(cfg: Config, text: string)
    requires cfg.WellFormed()
  {
    forall k | 0 < k <= |text| :: HeldWhole(cfg, text[..k])
  }

  ghost predicate HeldWhole(cfg: Config, text: string)
    requires cfg.WellFormed()
  {
    Passes(cfg.patterns, cfg.placeholder, text, true) == text && HoldbackIndex(cfg.patterns, text) == 0
  }

  /** Such a text is held as long as it is no longer than the ceiling, and then given up for one placeholder. */
  ghost predicate HeldOrGivenUp(cfg: Config, text: string, after: State, shown: string) {
    if |text| <= cfg.maxHoldback then shown == "" && after.buffer == text && !after.suppressing
    else shown == cfg.placeholder && after.buffer == "" && after.suppressing
  }

  lemma HeldStep(cfg: Config, st: State, text: string)
    requires cfg.WellFormed() && !st.suppressing && text != "" && HeldWhole(cfg, st.buffer + text)
    ensures var (after, shown) := Feed(cfg, st, text);
            HeldOrGivenUp(cfg, st.buffer + text, after, shown)
  {
    var all := st.buffer + text;
    assert all[0..] == all && all[..0] == "";
    AppendNil(cfg.placeholder);
  }

  lemma {:induction false} LongRunIsGivenUp(cfg: Config, st: State, chunks: seq<string>)
    requires cfg.WellFormed() && 0 <= cfg.maxHoldback && st.buffer == "" && !st.suppressing
    requires IsRun(cfg, Concat(chunks)) && HeldThroughout(cfg, Concat(chunks))
    ensures var (after, shown) := FeedAll(cfg, st, chunks);
            HeldOrGivenUp(cfg, Concat(chunks), after, shown)
    decreases |chunks|
  {
    if |chunks| > 0 {
      var k := |chunks| - 1;
      var before, text := Concat(chunks[..k]), chunks[k];
      ConcatLast(chunks);
      RunSplits(cfg, before, text);
      HeldPrefix(cfg, before, text);
      LongRunIsGivenUp(cfg, st, chunks[..k]);
      var (mid, shown) := FeedAll(cfg, st, chunks[..k]);
      AppendNil(shown);
      if text == "" {
        AppendNil(before);
      } else if |before| <= cfg.maxHoldback {
        HeldStep(cfg, mid, text);
      } else {
        RunIsDropped(cfg, mid, text);
      }
    }
  }

  lemma HeldPrefix(cfg: Config, before: string, text: string)
    requires cfg.WellFormed() && HeldThroughout(cfg, before + text)
    ensures HeldThroughout(cfg, before) && (text != "" ==> HeldWhole(cfg, before + text))
  {
    forall k | 0 < k <= |before|
      ensures HeldWhole(cfg, before[..k])
    {
      assert (before + text)[..k] == before[..k];
    }
    assert (before + text)[..|before + text|] == before + text;
  }

  /** Main result: a run that outgrows the ceiling before it ends is shown as one placeholder, however it is cut,
      and what follows is shown as if the stream had begun there. */
  lemma LongRunIsOnePlaceholder(cfg: Config, st: State, runs: seq<string>, end: string, rest: string, more: seq<string>)
    requires cfg.WellFormed() && 0 <= cfg.maxHoldback && st.buffer == "" && !st.suppressing
    requires IsRun(cfg, Concat(runs)) && HeldThroughout(cfg, Concat(runs)) && |Concat(runs)| > cfg.maxHoldback
    requires IsRun(cfg, end) && EndsRun(cfg, rest)
    ensures Process(cfg, st, runs + ([end + rest] + more)) == cfg.placeholder + Process(cfg, st, [rest] + more)
  {
    var (mid, shown) := FeedAll(cfg, st, runs);
    LongRunIsGivenUp(cfg, st, runs);
    FeedAllAppend(cfg, st, runs, [end + rest] + more);
    AppendNil([end + rest] + more);
    RunEndsAnywhere(cfg, mid, [], end, rest, more);
    FeedAllAlike(cfg, mid.(suppressing := false), st, [rest] + more);
    var (resumed, expected) := FeedAll(cfg, st, [rest] + more);
    FlushAlike(cfg, FeedAll(cfg, mid, [end + rest] + more).0, resumed);
    Associative(cfg.placeholder, expected, Flush(cfg, resumed).1);
  }

  /** A stream that ends inside such a run shows the placeholder and what a redactor shows for no text at all. */
  lemma LongRunToTheEnd(cfg: Config, st: State, runs: seq<string>)
    requires cfg.WellFormed() && 0 <= cfg.maxHoldback && st.buffer == "" && !st.suppressing
    requires IsRun(cfg, Concat(runs)) && |Concat(runs)| > cfg.maxHoldback
    requires exists k | 0 <= k <= |runs| :: |Concat(runs[..k])| > cfg.maxHoldback && HeldThroughout(cfg, Concat(runs[..k]))
    ensures Process(cfg, st, runs) == cfg.placeholder + Process(cfg, st, [])
  {
    var k :| 0 <= k <= |runs| && |Concat(runs[..k])| > cfg.maxHoldback && HeldThroughout(cfg, Concat(runs[..k]));
    var front, back := runs[..k], runs[k..];
    SplitsAndJoins(runs, k);
    ConcatAppends(front, back);
    RunSplits(cfg, Concat(front), Concat(back));
    LongRunIsGivenUp(cfg, st, front);
    var mid := FeedAll(cfg, st, front).0;
    FeedAllAppend(cfg, st, front, back);
    SuppressedRunIsSilent(cfg, mid, back);
    AppendNil(cfg.placeholder);
    FlushAlike(cfg, FeedAll(cfg, mid, back).0, st);
    AppendNil(Flush(cfg, st).1);
  }

  lemma {:induction false} ConcatAppends(a: seq<string>, b: seq<string>)
    ensures Concat(a + b) == Concat(a) + Concat(b)
    decreases |a|
  {
    if |a| == 0 {
      AppendNil(b);
      AppendNil(Concat(b));
    } else {
      ConcatAppends(a[1..], b);
      AppendUncons(a, b);
      Associative(a[0], Concat(a[1..]), Concat(b));
    }
  }

  // ---- Such runs exist ------------------------------------------------------------------------

  /** The one detector finds the words of `language`, which may be longer than the ceiling. */
  ghost predicate Alone(cfg: Config, language: Language) {
    cfg.WellFormed() && |cfg.patterns| == 1 && language.Valid() && Recognises(cfg.patterns[0], language)
  }

  /** Every beginning of a word is held throughout. */
  lemma BeginningIsHeld(cfg: Config, language: Language, text: string)
    requires Alone(cfg, language) && language.viable(text) && |text| < language.length
    ensures HeldThroughout(cfg, text)
  {
    forall k | 0 < k <= |text|
      ensures HeldWhole(cfg, text[..k])
    {
      ShortBeginningIsHeld(cfg, language, text[..k]);
    }
  }

  lemma ShortBeginningIsHeld(cfg: Config, language: Language, text: string)
    requires Alone(cfg, language) && language.viable(text) && 0 < |text| < language.length
    ensures HeldWhole(cfg, text)
  {
    var p := cfg.patterns[0];
    assert p.search(text, 0) == language.FirstWord(text, 0);
    assert text[0..] == text;
    KeepAllText(text, cfg.placeholder);
    assert Passes(cfg.patterns[1..], cfg.placeholder, text, true) == text;
    assert text[0..Min(language.length, |text|)] == text;
    assert language.Scan(text, 0) == [Hit(0, |text|, true)];
    assert EarliestUnsafe(p.scan(text), |text|) == 0;
  }
}

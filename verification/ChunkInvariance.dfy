/** A redactor with a single fixed-length, context-free detector does not depend on where chunks fall:
    it computes the leftmost, non-overlapping replacement of the whole text, and holds no more than the
    beginning of one word. */
module ChunkInvariance {
  import opened Basics
  import opened Detectors
  import opened Pieces
  import opened Redaction
  import opened RedactorSafety
  import opened Replacing
  import opened ManyDetectors

  /** The language's detector is the only one, and the ceiling leaves room for one word. */
  ghost predicate Solo(cfg: Config, language: Language) {
    && cfg.WellFormed() && language.Valid() && language.Avoids(cfg.placeholder)
    && |cfg.patterns| == 1 && Recognises(cfg.patterns[0], language)
    && language.length <= cfg.maxHoldback
  }

  /** The language's own scan holds back no more than one word. */
  lemma ScanHoldsOneWord(language: Language, text: string)
    requires language.Valid()
    ensures var split := EarliestUnsafe(language.Scan(text, 0), |text|);
            && |text| <= split + language.length
            && (split < |text| ==> language.StartsAt(text, split))
  {
    var hits := language.Scan(text, 0);
    var split := EarliestUnsafe(hits, |text|);
    if split < |text| {
      var h :| 0 <= h < |hits| && (hits[h].partial || hits[h].end == |text|) && hits[h].start == split;
      UnsafeHitStarts(language, text, 0, hits[h]);
    }
  }

  /** A recognising detector catches its language, and holds back no more than one word. */
  lemma RecognisesIsExact(p: Pattern, language: Language, n: int)
    requires language.Valid() && Recognises(p, language) && language.length <= n
    ensures Catches(p, language) && HoldsAtMost(p, n)
  {
    forall text
      ensures |text| <= EarliestUnsafe(p.scan(text), |text|) + n
    {
      ScanHoldsOneWord(language, text);
    }
  }

  /** What a recognising detector holds back is the beginning of one word. */
  lemma RecognisedHolds(p: Pattern, language: Language, text: string)
    requires language.Valid() && Recognises(p, language)
    ensures var split := EarliestUnsafe(p.scan(text), |text|);
            && |text| <= split + language.length
            && (split < |text| ==> language.StartsAt(text, split))
  {
    assert p.scan(text) == language.Scan(text, 0);
    ScanHoldsOneWord(language, text);
  }

  lemma SoloIsListed(cfg: Config, language: Language)
    requires Solo(cfg, language)
    ensures Listed(cfg, [language])
  {
    RecognisesIsExact(cfg.patterns[0], language, cfg.maxHoldback);
  }

  lemma SoloPasses(cfg: Config, language: Language, text: string, protectTail: bool)
    requires Solo(cfg, language)
    ensures Passes(cfg.patterns, cfg.placeholder, text, protectTail)
         == Settle(language, cfg.placeholder, text, protectTail, 0)
  {
    PassIsSettle(language, cfg.patterns[0], cfg.placeholder, text, protectTail);
    var rest := cfg.patterns[1..];
    assert |rest| == 0;
    var shown := Shown(Pass(cfg.patterns[0], text, protectTail), cfg.placeholder);
    assert Passes(rest, cfg.placeholder, shown, protectTail) == shown;
  }

  lemma ReplaceAllOne(language: Language, placeholder: string, text: string)
    requires 1 <= language.length
    ensures ReplaceAll([language], placeholder, text) == Replace(language, placeholder, text)
  {
    assert |[language][..0]| == 0;
  }

  // ---- What is held ---------------------------------------------------------------------------

  /** Nothing is held but the beginning of a word, and the ceiling has not been met. */
  ghost predicate HoldsOneStart(language: Language, st: State) {
    && !st.suppressing
    && |st.buffer| <= language.length
    && (st.buffer != "" ==> language.StartsAt(st.buffer, 0))
  }

  lemma SoloHolds(cfg: Config, language: Language, text: string)
    requires Solo(cfg, language)
    ensures HoldbackIndex(cfg.patterns, text) == EarliestUnsafe(language.Scan(text, 0), |text|)
  {
    assert cfg.patterns[0].scan(text) == language.Scan(text, 0);
  }

  lemma ReleaseHoldsOneStart(cfg: Config, language: Language, stats: Stats, redacted: string)
    requires Solo(cfg, language)
    ensures HoldsOneStart(language, Release(cfg, stats, redacted).0)
  {
    SoloHolds(cfg, language, redacted);
    ScanHoldsOneWord(language, redacted);
    var split := HoldbackIndex(cfg.patterns, redacted);
    SplitsAndJoins(redacted, split);
    ShiftPositions(language, redacted[..split], redacted[split..], 0);
  }

  lemma FeedHoldsOneStart(cfg: Config, language: Language, st: State, text: string)
    requires Solo(cfg, language) && HoldsOneStart(language, st)
    ensures HoldsOneStart(language, Feed(cfg, st, text).0)
  {
    if text != "" {
      var all := st.buffer + text;
      var stats := st.stats.(charactersIn := st.stats.charactersIn + |text|);
      var counts := PassCounts(cfg.patterns, cfg.placeholder, all, true, stats.counts);
      ReleaseHoldsOneStart(cfg, language, stats.(counts := counts), Passes(cfg.patterns, cfg.placeholder, all, true));
    }
  }

  lemma {:induction false} AlwaysHoldsOneStart(cfg: Config, language: Language, chunks: seq<string>)
    requires Solo(cfg, language)
    ensures HoldsOneStart(language, FeedAll(cfg, INITIAL, chunks).0)
    decreases |chunks|
  {
    if |chunks| > 0 {
      var k := |chunks| - 1;
      AlwaysHoldsOneStart(cfg, language, chunks[..k]);
      FeedHoldsOneStart(cfg, language, FeedAll(cfg, INITIAL, chunks[..k]).0, chunks[k]);
    }
  }

  /** The holdback point is exactly the end of the settled text. */
  lemma HoldsFromSettled(language: Language, cfg: Config, redacted: string, m: nat)
    requires Solo(cfg, language)
    requires WordsOnlyAtTail(language, redacted, true) && NoStartBefore(language, redacted, m)
    requires m <= |redacted| && (m < |redacted| ==> language.StartsAt(redacted, m))
    ensures HoldbackIndex(cfg.patterns, redacted) == m
  {
    SoloHolds(cfg, language, redacted);
    ScanHoldsOneWord(language, redacted);
    if m < |redacted| {
      ScanHoldsStarts(language, redacted, 0, m);
    }
  }

  // ---- Whole streams --------------------------------------------------------------------------

  /** At every moment, what is emitted and the replacement of what is held add up to the replacement of the
      whole input, whatever `more` follows; what is held is the beginning of a word, and the ceiling has not
      been met. */
  lemma EmittedPlusHeld(cfg: Config, language: Language, chunks: seq<string>, more: string)
    requires Solo(cfg, language)
    ensures var (st, output) := FeedAll(cfg, INITIAL, chunks);
            && HoldsOneStart(language, st)
            && output + Replace(language, cfg.placeholder, st.buffer + more)
               == Replace(language, cfg.placeholder, Concat(chunks) + more)
  {
    SoloIsListed(cfg, language);
    AlwaysHoldsOneStart(cfg, language, chunks);
    StreamAccounts(cfg, [language], chunks, more);
    ReplaceAllOne(language, cfg.placeholder, FeedAll(cfg, INITIAL, chunks).0.buffer + more);
    ReplaceAllOne(language, cfg.placeholder, Concat(chunks) + more);
  }

  /** Main result: for every cut of a text, the stream's output is the whole-text replacement. */
  lemma StreamingIsReplacement(cfg: Config, language: Language, chunks: seq<string>)
    requires Solo(cfg, language)
    ensures Process(cfg, INITIAL, chunks) == Replace(language, cfg.placeholder, Concat(chunks))
  {
    SoloIsListed(cfg, language);
    StreamReplacesAll(cfg, [language], chunks);
    ReplaceAllOne(language, cfg.placeholder, Concat(chunks));
  }

  /** Two cuts of the same text give the same output; in particular the one-piece cut is an oracle for all. */
  lemma CutsDoNotMatter(cfg: Config, language: Language, chunks: seq<string>)
    requires Solo(cfg, language)
    ensures Process(cfg, INITIAL, chunks) == Process(cfg, INITIAL, [Concat(chunks)])
  {
    StreamingIsReplacement(cfg, language, chunks);
    StreamingIsReplacement(cfg, language, [Concat(chunks)]);
    ConcatSingle(Concat(chunks));
  }
}

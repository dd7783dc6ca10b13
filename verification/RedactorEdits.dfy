/** The redactor is an order-preserving edit: at every moment the input read so far is, in order, text
    emitted verbatim, spans replaced by placeholders, dropped characters of a suppressed run, and the
    pending buffer. Nothing is lost, duplicated or moved. */
module RedactorEdits {
  import opened Basics
  import opened Detectors
  import opened Pieces
  import opened Redaction
  import opened RedactorSafety

  predicate PlaceholderAt(text: string, placeholder: string, k: nat) {
    k + |placeholder| <= |text| && text[k..k + |placeholder|] == placeholder
  }

  /** Position `b` lies strictly inside an occurrence of the placeholder. */
  ghost predicate Cuts(text: string, placeholder: string, b: nat) {
    exists k: nat :: PlaceholderAt(text, placeholder, k) && k < b < k + |placeholder|
  }

  /** The detector neither replaces nor holds back from inside a placeholder. */
  ghost predicate Respects(p: Pattern, placeholder: string)
    requires p.WellFormed()
  {
    && (forall text, protectTail, from: nat ::
          var r := NextSpan(p, text, protectTail, from);
          r.Some? ==> !Cuts(text, placeholder, r.value.start) && !Cuts(text, placeholder, r.value.end))
    && (forall text :: !Cuts(text, placeholder, EarliestUnsafe(p.scan(text), |text|)))
  }

  ghost predicate AllRespect(cfg: Config) {
    && cfg.WellFormed() && cfg.placeholder != ""
    && forall i | 0 <= i < |cfg.patterns| :: Respects(cfg.patterns[i], cfg.placeholder)
  }

  ghost predicate NoneDropped(ps: seq<Piece>) {
    forall p | p in ps :: !p.Dropped?
  }

  // ---- A fixed-length language respects any placeholder it avoids ------------------------------

  lemma PlaceholderCharacter(text: string, placeholder: string, k: nat, i: nat)
    requires PlaceholderAt(text, placeholder, k) && k <= i < k + |placeholder|
    ensures text[i] in placeholder
  {
    assert text[k..k + |placeholder|][i - k] == placeholder[i - k];
  }

  lemma ForeignCharacter(text: string, placeholder: string, b: nat, i: nat)
    requires i < |text| && text[i] !in placeholder && (i == b || i + 1 == b)
    ensures !Cuts(text, placeholder, b)
  {
    if Cuts(text, placeholder, b) {
      var k: nat :| PlaceholderAt(text, placeholder, k) && k < b < k + |placeholder|;
      PlaceholderCharacter(text, placeholder, k, i);
    }
  }

  lemma LanguageRespects(language: Language, p: Pattern, placeholder: string)
    requires language.Valid() && language.Avoids(placeholder) && p.WellFormed() && Recognises(p, language)
    ensures Respects(p, placeholder)
  {
    forall text, protectTail, from: nat | NextSpan(p, text, protectTail, from).Some?
      ensures var Span(start, end) := NextSpan(p, text, protectTail, from).value;
              !Cuts(text, placeholder, start) && !Cuts(text, placeholder, end)
    {
      OwnNextSpan(language, p, text, protectTail, from);
      var Span(start, end) := NextSpan(p, text, protectTail, from).value;
      var word := text[start..end];
      assert word[0] == text[start] && word[language.length - 1] == text[end - 1];
      ForeignCharacter(text, placeholder, start, start);
      ForeignCharacter(text, placeholder, end, end - 1);
    }
    forall text
      ensures !Cuts(text, placeholder, EarliestUnsafe(p.scan(text), |text|))
    {
      LanguageHoldRespects(language, placeholder, text);
    }
  }

  lemma LanguageHoldRespects(language: Language, placeholder: string, text: string)
    requires language.Valid() && language.Avoids(placeholder)
    ensures !Cuts(text, placeholder, EarliestUnsafe(language.Scan(text, 0), |text|))
  {
    var hits := language.Scan(text, 0);
    var b := EarliestUnsafe(hits, |text|);
    if b < |text| {
      var h :| 0 <= h < |hits| && (hits[h].partial || hits[h].end == |text|) && hits[h].start == b;
      UnsafeHitStarts(language, text, 0, hits[h]);
      StartIsForeign(language, placeholder, text, b);
      ForeignCharacter(text, placeholder, b, b);
    }
  }

  lemma StartIsForeign(language: Language, placeholder: string, text: string, b: nat)
    requires language.Valid() && language.Avoids(placeholder) && language.StartsAt(text, b)
    ensures text[b] !in placeholder
  {
    var head := text[b..Min(b + language.length, |text|)];
    assert head[0] == text[b];
  }

  // ---- Cutting a list of pieces at a position of the text it shows -----------------------------

  lemma CutsShift(x: string, y: string, placeholder: string, b: nat)
    requires Cuts(y, placeholder, b)
    ensures Cuts(x + y, placeholder, |x| + b)
  {
    var k: nat :| PlaceholderAt(y, placeholder, k) && k < b < k + |placeholder|;
    assert (x + y)[|x| + k..|x| + k + |placeholder|] == y[k..k + |placeholder|];
    assert PlaceholderAt(x + y, placeholder, |x| + k);
  }

  /** A position that cuts no placeholder falls between two pieces. */
  lemma {:induction false} CutPieces(ps: seq<Piece>, placeholder: string, b: nat) returns (n: nat)
    requires placeholder != "" && NoneDropped(ps) && b <= |Shown(ps, placeholder)|
    requires !Cuts(Shown(ps, placeholder), placeholder, b)
    ensures n <= |ps| && Shown(ps[..n], placeholder) == Shown(ps, placeholder)[..b]
    ensures Shown(ps[n..], placeholder) == Shown(ps, placeholder)[b..]
  {
    if b == 0 {
      n := 0;
    } else {
      var first, rest := ShownOf(ps[0], placeholder), Shown(ps[1..], placeholder);
      FirstWhole(ps[0], placeholder, rest, b);
      var m := CutPieces(ps[1..], placeholder, b - |first|);
      n := m + 1;
      SplitLater(first, rest, b);
      assert ps[..n][0] == ps[0] && ps[..n][1..] == ps[1..][..m];
      assert ps[n..] == ps[1..][m..];
    }
  }

  lemma SplitLater(first: string, rest: string, b: nat)
    requires |first| <= b <= |first| + |rest|
    ensures (first + rest)[..b] == first + rest[..b - |first|] && (first + rest)[b..] == rest[b - |first|..]
  {
  }

  /** A position that cuts no placeholder does not cut the first piece. */
  lemma FirstWhole(p: Piece, placeholder: string, rest: string, b: nat)
    requires placeholder != "" && !p.Dropped? && 0 < b <= |ShownOf(p, placeholder) + rest|
    requires !Cuts(ShownOf(p, placeholder) + rest, placeholder, b)
    ensures |ShownOf(p, placeholder)| <= b && !Cuts(rest, placeholder, b - |ShownOf(p, placeholder)|)
  {
    var first := ShownOf(p, placeholder);
    if b < |first| {
      assert (first + rest)[0..|placeholder|] == placeholder;
      assert PlaceholderAt(first + rest, placeholder, 0);
      assert false;
    }
    if Cuts(rest, placeholder, b - |first|) {
      CutsShift(first, rest, placeholder, b - |first|);
    }
  }

  /** The same for pieces that show the rest of a text from `position` on. */
  lemma CutRest(ps: seq<Piece>, placeholder: string, text: string, position: nat, b: nat)
    returns (front: seq<Piece>, back: seq<Piece>)
    requires placeholder != "" && position <= b <= |text| && !Cuts(text, placeholder, b)
    requires NoneDropped(ps) && Shown(ps, placeholder) == text[position..]
    ensures NoneDropped(front) && NoneDropped(back) && Source(ps) == Source(front) + Source(back)
    ensures Shown(front, placeholder) == text[position..b] && Shown(back, placeholder) == text[b..]
  {
    var rest := text[position..];
    SplitsAndJoins(text, position);
    if Cuts(rest, placeholder, b - position) {
      CutsShift(text[..position], rest, placeholder, b - position);
      assert false;
    }
    var n := CutPieces(ps, placeholder, b - position);
    front, back := ps[..n], ps[n..];
    SplitsAndJoins(ps, n);
    SourceAppend(front, back);
    assert rest[..b - position] == text[position..b] && rest[b - position..] == text[b..];
  }

  // ---- Passes as edits of edits ----------------------------------------------------------------

  /** `ps` shows `shown` in place of `source`. */
  ghost predicate IsEdit(ps: seq<Piece>, placeholder: string, source: string, shown: string) {
    NoneDropped(ps) && Source(ps) == source && Shown(ps, placeholder) == shown
  }

  /** Pieces cut at both ends of a span. */
  lemma CutSpan(ps: seq<Piece>, placeholder: string, text: string, position: nat, start: nat, end: nat)
    returns (a: seq<Piece>, b: seq<Piece>, c: seq<Piece>)
    requires placeholder != "" && position <= start <= end <= |text|
    requires !Cuts(text, placeholder, start) && !Cuts(text, placeholder, end)
    requires NoneDropped(ps) && Shown(ps, placeholder) == text[position..]
    ensures Source(ps) == Source(a) + (Source(b) + Source(c))
    ensures IsEdit(a, placeholder, Source(a), text[position..start])
    ensures IsEdit(c, placeholder, Source(c), text[end..])
  {
    var bc;
    a, bc := CutRest(ps, placeholder, text, position, start);
    b, c := CutRest(bc, placeholder, text, start, end);
  }

  lemma HideMiddle(a: seq<Piece>, b: seq<Piece>, c: seq<Piece>, placeholder: string, x: string, y: string)
    returns (r: seq<Piece>)
    requires IsEdit(a, placeholder, Source(a), x) && IsEdit(c, placeholder, Source(c), y)
    ensures IsEdit(r, placeholder, Source(a) + (Source(b) + Source(c)), (x + placeholder) + y)
  {
    var hidden := [Hidden(Source(b))];
    r := a + hidden + c;
    Single(hidden[0], placeholder);
    SourceAppend(a, hidden);
    SourceAppend(a + hidden, c);
    Associative(Source(a), Source(b), Source(c));
    ShownAppend(a, hidden, placeholder);
    ShownAppend(a + hidden, c, placeholder);
  }

  /** No end of a span cuts a placeholder. */
  ghost predicate Whole(spans: Spans, text: string, placeholder: string) {
    spans.More? ==>
      !Cuts(text, placeholder, spans.start) && !Cuts(text, placeholder, spans.end) && Whole(spans.rest, text, placeholder)
  }

  lemma {:induction false} RespectedSpans(p: Pattern, placeholder: string, text: string, protectTail: bool, from: nat)
    requires p.WellFormed() && Respects(p, placeholder)
    ensures Whole(FindSpans(p, text, protectTail, from), text, placeholder)
    decreases |text| + 1 - from
  {
    var found := NextSpan(p, text, protectTail, from);
    if found.Some? {
      RespectedSpans(p, placeholder, text, protectTail, Resume(found.value));
    }
  }

  /** Replacing spans in a text that is itself an edit of some input is again an edit of that input. */
  lemma {:induction false} EditSpans(ps: seq<Piece>, placeholder: string, text: string, position: nat, spans: Spans)
    returns (r: seq<Piece>)
    requires placeholder != "" && position <= |text| && Fits(spans, position, |text|) && Whole(spans, text, placeholder)
    requires NoneDropped(ps) && Shown(ps, placeholder) == text[position..]
    ensures IsEdit(r, placeholder, Source(ps), CutText(placeholder, text, position, spans))
    decreases spans
  {
    match spans
    case NoMore => r := ps;
    case More(start, end, rest) =>
      var a, b, c := CutSpan(ps, placeholder, text, position, start, end);
      var c' := EditSpans(c, placeholder, text, end, rest);
      r := HideMiddle(a, b, c', placeholder, text[position..start], CutText(placeholder, text, end, rest));
  }

  lemma {:induction false} EditPasses(ps: seq<Piece>, patterns: seq<Pattern>, placeholder: string, text: string, protectTail: bool)
    returns (r: seq<Piece>)
    requires placeholder != ""
    requires forall i | 0 <= i < |patterns| :: patterns[i].WellFormed() && Respects(patterns[i], placeholder)
    requires NoneDropped(ps) && Shown(ps, placeholder) == text
    ensures IsEdit(r, placeholder, Source(ps), Passes(patterns, placeholder, text, protectTail))
    decreases |patterns|
  {
    if |patterns| == 0 {
      r := ps;
    } else {
      assert text[0..] == text;
      var spans := FindSpans(patterns[0], text, protectTail, 0);
      RespectedSpans(patterns[0], placeholder, text, protectTail, 0);
      var once := EditSpans(ps, placeholder, text, 0, spans);
      CutShows(placeholder, text, 0, spans);
      r := EditPasses(once, patterns[1..], placeholder, Shown(once, placeholder), protectTail);
    }
  }

  // ---- Whole streams --------------------------------------------------------------------------

  ghost predicate OnlyRunsDropped(cfg: Config, ps: seq<Piece>) {
    forall p | p in ps && p.Dropped? :: cfg.runCharacter(p.c)
  }

  /** `emitted` explains the output and `pending` the buffer; together they account for the input. Only
      characters of an over-long run are ever dropped. */
  ghost predicate Explains(cfg: Config, st: State, input: string, output: string, emitted: seq<Piece>, pending: seq<Piece>) {
    && Source(emitted) + Source(pending) == input
    && Shown(emitted, cfg.placeholder) == output
    && Shown(pending, cfg.placeholder) == st.buffer
    && NoneDropped(pending)
    && OnlyRunsDropped(cfg, emitted)
    && (st.suppressing ==> pending == [])
  }

  lemma KeepInput(ps: seq<Piece>, text: string, placeholder: string) returns (r: seq<Piece>)
    requires NoneDropped(ps)
    ensures NoneDropped(r) && Source(r) == Source(ps) + text
    ensures Shown(r, placeholder) == Shown(ps, placeholder) + text
  {
    r := ps + KeepAll(text);
    KeepAllText(text, placeholder);
    KeepAllKept(text);
    SourceAppend(ps, KeepAll(text));
    ShownAppend(ps, KeepAll(text), placeholder);
  }

  lemma DropInput(cfg: Config, emitted: seq<Piece>, text: string) returns (r: seq<Piece>)
    requires OnlyRunsDropped(cfg, emitted)
    requires forall i | 0 <= i < |text| :: cfg.runCharacter(text[i])
    ensures Source(r) == Source(emitted) + text && Shown(r, cfg.placeholder) == Shown(emitted, cfg.placeholder)
    ensures OnlyRunsDropped(cfg, r)
  {
    r := emitted + DropAll(text);
    DropAllText(text, cfg.placeholder);
    DropAllDrops(text);
    SourceAppend(emitted, DropAll(text));
    ShownAppend(emitted, DropAll(text), cfg.placeholder);
    AppendNil(Shown(emitted, cfg.placeholder));
  }

  lemma {:induction false} DropAllDrops(text: string)
    ensures forall p | p in DropAll(text) :: p.Dropped? && p.c in text
  {
    if |text| > 0 {
      DropAllDrops(text[1..]);
    }
  }

  lemma HoldbackRespects(cfg: Config, text: string)
    requires AllRespect(cfg)
    ensures !Cuts(text, cfg.placeholder, HoldbackIndex(cfg.patterns, text))
  {
    var split := HoldbackIndex(cfg.patterns, text);
    if split < |text| {
      var i :| 0 <= i < |cfg.patterns| && EarliestUnsafe(cfg.patterns[i].scan(text), |text|) == split;
      assert Respects(cfg.patterns[i], cfg.placeholder);
    }
  }

  lemma AppendPieces(a: seq<Piece>, b: seq<Piece>, placeholder: string, source: string, shown: string)
    requires Source(b) == source && Shown(b, placeholder) == shown
    ensures Source(a + b) == Source(a) + source && Shown(a + b, placeholder) == Shown(a, placeholder) + shown
  {
    SourceAppend(a, b);
    ShownAppend(a, b, placeholder);
  }

  lemma RunsAppend(cfg: Config, a: seq<Piece>, b: seq<Piece>)
    requires OnlyRunsDropped(cfg, a) && NoneDropped(b)
    ensures OnlyRunsDropped(cfg, a + b)
  {
  }

  /** More pieces emitted. */
  lemma EmitMore(cfg: Config, emitted: seq<Piece>, front: seq<Piece>, output: string, shown: string, rest: string, input: string)
    requires OnlyRunsDropped(cfg, emitted) && NoneDropped(front)
    requires Shown(emitted, cfg.placeholder) == output && Shown(front, cfg.placeholder) == shown
    requires Source(emitted) + (Source(front) + rest) == input
    ensures Source(emitted + front) + rest == input
    ensures Shown(emitted + front, cfg.placeholder) == output + shown
    ensures OnlyRunsDropped(cfg, emitted + front)
  {
    AppendPieces(emitted, front, cfg.placeholder, Source(front), shown);
    Associative(Source(emitted), Source(front), rest);
    RunsAppend(cfg, emitted, front);
  }

  lemma CutHoldback(cfg: Config, redacted: string, all: seq<Piece>) returns (front: seq<Piece>, back: seq<Piece>)
    requires AllRespect(cfg) && NoneDropped(all) && Shown(all, cfg.placeholder) == redacted
    ensures var split := HoldbackIndex(cfg.patterns, redacted);
            && NoneDropped(front) && NoneDropped(back) && Source(all) == Source(front) + Source(back)
            && Shown(front, cfg.placeholder) == redacted[..split] && Shown(back, cfg.placeholder) == redacted[split..]
  {
    var split := HoldbackIndex(cfg.patterns, redacted);
    HoldbackRespects(cfg, redacted);
    assert redacted[0..] == redacted && redacted[0..split] == redacted[..split];
    front, back := CutRest(all, cfg.placeholder, redacted, 0, split);
  }

  /** A tail given up for one placeholder. */
  lemma HideTail(cfg: Config, front: seq<Piece>, back: seq<Piece>) returns (all: seq<Piece>)
    requires NoneDropped(front)
    ensures IsEdit(all, cfg.placeholder, Source(front) + Source(back), Shown(front, cfg.placeholder) + cfg.placeholder)
  {
    var hidden := [Hidden(Source(back))];
    Single(hidden[0], cfg.placeholder);
    AppendPieces(front, hidden, cfg.placeholder, Source(back), cfg.placeholder);
    all := front + hidden;
  }

  /** Emitted and held parts of a redacted text, cut at the holdback point. */
  lemma ReleaseExplained(cfg: Config, stats: Stats, redacted: string, input: string, output: string,
                         emitted: seq<Piece>, all: seq<Piece>) returns (emitted': seq<Piece>, pending: seq<Piece>)
    requires AllRespect(cfg) && NoneDropped(all) && Shown(all, cfg.placeholder) == redacted
    requires Source(emitted) + Source(all) == input && Shown(emitted, cfg.placeholder) == output
    requires OnlyRunsDropped(cfg, emitted)
    ensures var (st, out) := Release(cfg, stats, redacted);
            Explains(cfg, st, input, output + out, emitted', pending)
  {
    var split := HoldbackIndex(cfg.patterns, redacted);
    var front, back := CutHoldback(cfg, redacted, all);
    if |redacted[split..]| > cfg.maxHoldback {
      var hidden := HideTail(cfg, front, back);
      AppendNil(Source(hidden));
      EmitMore(cfg, emitted, hidden, output, redacted[..split] + cfg.placeholder, "", input);
      emitted', pending := emitted + hidden, [];
    } else {
      EmitMore(cfg, emitted, front, output, redacted[..split], Source(back), input);
      emitted', pending := emitted + front, back;
    }
  }

  lemma AbsorbExplained(cfg: Config, buffer: string, stats: Stats, text: string, input: string, output: string,
                        emitted: seq<Piece>, pending: seq<Piece>) returns (emitted': seq<Piece>, pending': seq<Piece>)
    requires AllRespect(cfg) && NoneDropped(pending) && Shown(pending, cfg.placeholder) == buffer
    requires Source(emitted) + Source(pending) == input && Shown(emitted, cfg.placeholder) == output
    requires OnlyRunsDropped(cfg, emitted)
    ensures var (st, out) := Absorb(cfg, buffer, stats, text);
            Explains(cfg, st, input + text, output + out, emitted', pending')
  {
    var all := KeepInput(pending, text, cfg.placeholder);
    Associative(Source(emitted), Source(pending), text);
    var edited := EditPasses(all, cfg.patterns, cfg.placeholder, buffer + text, true);
    var counts := PassCounts(cfg.patterns, cfg.placeholder, buffer + text, true, stats.counts);
    emitted', pending' := ReleaseExplained(cfg, stats.(counts := counts), Shown(edited, cfg.placeholder),
                                           input + text, output, emitted, edited);
  }

  lemma FeedExplained(cfg: Config, st: State, text: string, input: string, output: string,
                      emitted: seq<Piece>, pending: seq<Piece>) returns (emitted': seq<Piece>, pending': seq<Piece>)
    requires AllRespect(cfg) && Explains(cfg, st, input, output, emitted, pending)
    ensures var (after, out) := Feed(cfg, st, text);
            Explains(cfg, after, input + text, output + out, emitted', pending')
  {
    emitted', pending' := emitted, pending;
    AppendNil(output);
    AppendNil(input);
    if text != "" {
      var (arrived, rest) := Arrive(cfg, st, text);
      var dropped := text[..|text| - |rest|];
      if st.suppressing {
        SplitsAndJoins(text, |text| - |rest|);
        AppendNil(Source(emitted));
        emitted' := DropInput(cfg, emitted, dropped);
        AppendNil(Source(emitted'));
      }
      assert dropped + rest == text;
      Associative(input, dropped, rest);
      AppendNil(input + dropped);
      if rest != "" {
        emitted', pending' := AbsorbExplained(cfg, arrived.buffer, arrived.stats, rest, input + dropped, output, emitted', pending);
      }
    }
  }

  lemma NothingExplained(cfg: Config)
    ensures Explains(cfg, INITIAL, "", "", [], [])
  {
    AppendNil("");
  }

  /** At every moment of a stream there is a list of pieces that explains it. */
  lemma {:induction false} StreamIsAnEdit(cfg: Config, chunks: seq<string>) returns (emitted: seq<Piece>, pending: seq<Piece>)
    requires AllRespect(cfg)
    ensures var (st, output) := FeedAll(cfg, INITIAL, chunks);
            Explains(cfg, st, Concat(chunks), output, emitted, pending)
    decreases |chunks|
  {
    if |chunks| == 0 {
      emitted, pending := [], [];
      NothingExplained(cfg);
    } else {
      var k := |chunks| - 1;
      emitted, pending := StreamIsAnEdit(cfg, chunks[..k]);
      var (st, output) := FeedAll(cfg, INITIAL, chunks[..k]);
      emitted, pending := FeedExplained(cfg, st, chunks[k], Concat(chunks[..k]), output, emitted, pending);
      ConcatLast(chunks);
    }
  }

  /** Main result: a whole stream is an order-preserving edit of its input with nothing pending. */
  lemma WholeStreamIsAnEdit(cfg: Config, chunks: seq<string>) returns (ps: seq<Piece>)
    requires AllRespect(cfg)
    ensures Source(ps) == Concat(chunks)
    ensures Shown(ps, cfg.placeholder) == Process(cfg, INITIAL, chunks)
    ensures forall p | p in ps && p.Dropped? :: cfg.runCharacter(p.c)
  {
    var emitted, pending := StreamIsAnEdit(cfg, chunks);
    var st := FeedAll(cfg, INITIAL, chunks).0;
    var rest := EditPasses(pending, cfg.patterns, cfg.placeholder, st.buffer, false);
    ps := emitted + rest;
    SourceAppend(emitted, rest);
    ShownAppend(emitted, rest, cfg.placeholder);
  }
}

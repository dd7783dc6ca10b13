/** Several flushes of one channel: what has been flushed cannot be taken back, so a word cut by a flush is
    shown. No word is, exactly as long as no flush finds a channel with an unfinished word pending. */
module Flushes {
  import opened Basics
  import opened Detectors
  import opened Pieces
  import opened Redaction
  import opened Suppression
  import opened RedactorSafety
  import opened Replacing
  import opened ManyDetectors
  import opened ChunkInvariance
  import opened Channels
  import Ssn

  // ---- Runs of one redactor -------------------------------------------------------------------

  lemma {:induction false} LoneAppend(cfg: Config, key: string, st: Option<State>, a: seq<Event>, b: seq<Event>)
    requires cfg.WellFormed()
    ensures var (mid, first) := Lone(cfg, key, st, a);
            var (end, second) := Lone(cfg, key, mid, b);
            Lone(cfg, key, st, a + b) == (end, first + second)
    decreases |b|
  {
    if |b| == 0 {
      AppendNil(a);
      AppendNil(Lone(cfg, key, st, a).1);
    } else {
      var k := |b| - 1;
      LoneAppend(cfg, key, st, a, b[..k]);
      assert (a + b)[..|a + b| - 1] == a + b[..k];
      var (mid, first) := Lone(cfg, key, st, a);
      var (before, second) := Lone(cfg, key, mid, b[..k]);
      Associative(first, second, LoneStep(cfg, key, before, b[k]).1);
    }
  }

  lemma LoneOne(cfg: Config, key: string, st: Option<State>, e: Event)
    requires cfg.WellFormed()
    ensures Lone(cfg, key, st, [e]) == LoneStep(cfg, key, st, e)
  {
    assert |[e][..0]| == 0;
    AppendNil(LoneStep(cfg, key, st, e).1);
  }

  ghost predicate OnlyText(events: seq<Event>) {
    forall e | e in events :: e.Text?
  }

  /** What a channel is holding. */
  function Pending(st: Option<State>): string {
    if st.Some? then st.value.buffer else ""
  }

  // ---- Safety across flushes ------------------------------------------------------------------

  /** Nothing shown so far can be the beginning of a word. */
  ghost predicate SealedRun(language: Language, st: Option<State>, output: string) {
    if st.Some? then Sealed(language, st.value, output) else output == ""
  }

  /** A flush that finds nothing pending, or finds a whole word that is the redactor's only concern. */
  ghost predicate Finished(cfg: Config, language: Language, pending: string)
    requires cfg.WellFormed() && 1 <= language.length
  {
    pending == "" || (Solo(cfg, language) && language.WordAt(pending, 0) && |pending| == language.length)
  }

  /** Every flush among the events finds the channel finished. */
  ghost predicate FinishedFlushes(cfg: Config, language: Language, key: string, st: Option<State>, events: seq<Event>)
    requires cfg.WellFormed() && 1 <= language.length
  {
    forall j | 0 <= j < |events| && events[j].FlushAll? :: FinishedAt(cfg, language, key, st, events[..j])
  }

  ghost predicate FinishedAt(cfg: Config, language: Language, key: string, st: Option<State>, before: seq<Event>)
    requires cfg.WellFormed() && 1 <= language.length
  {
    Finished(cfg, language, Pending(Lone(cfg, key, st, before).0))
  }

  /** Passes over nothing show nothing but characters of the placeholder. */
  lemma {:induction false} PassesOfPlaceholder(ps: seq<Pattern>, placeholder: string, text: string, protectTail: bool)
    requires forall i | 0 <= i < |ps| :: ps[i].WellFormed()
    requires forall c | c in text :: c in placeholder
    ensures forall c | c in Passes(ps, placeholder, text, protectTail) :: c in placeholder
    decreases |ps|
  {
    if |ps| > 0 {
      var pieces := Pass(ps[0], text, protectTail);
      PassAccounts(ps[0], text, protectTail);
      ShownFrom(pieces, placeholder);
      PassesOfPlaceholder(ps[1..], placeholder, Shown(pieces, placeholder), protectTail);
    }
  }

  lemma {:induction false} ShownFrom(ps: seq<Piece>, placeholder: string)
    ensures forall c | c in Shown(ps, placeholder) :: c in placeholder || c in Source(ps)
  {
    if |ps| > 0 {
      ShownFrom(ps[1..], placeholder);
    }
  }

  lemma PlaceholdersAreSealed(language: Language, placeholder: string, output: string, shown: string)
    requires language.Valid() && language.Avoids(placeholder)
    requires NoStartBefore(language, output, |output|) && forall c | c in shown :: c in placeholder
    ensures NoStartBefore(language, output + shown, |output + shown|)
  {
    var text := output + shown;
    forall i: nat | i < |text|
      ensures !language.StartsAt(text, i)
    {
      if i < |output| {
        ExtensionStartsNothing(language, output, shown, i);
      } else {
        var head := text[i..Min(i + language.length, |text|)];
        assert head[0] == shown[i - |output|] && shown[i - |output|] in shown;
      }
    }
  }

  lemma WholeWordFlushed(cfg: Config, language: Language, word: string)
    requires Solo(cfg, language) && language.WordAt(word, 0) && |word| == language.length
    ensures Passes(cfg.patterns, cfg.placeholder, word, false) == cfg.placeholder
  {
    SoloPasses(cfg, language, word, false);
    AppendNil(cfg.placeholder);
  }

  /** A flush of a finished channel keeps it sealed. */
  lemma FinishedFlushIsSealed(cfg: Config, language: Language, st: State, output: string)
    requires Guards(cfg, language) && Sealed(language, st, output) && Finished(cfg, language, st.buffer)
    ensures Sealed(language, Flush(cfg, st).0, output + Flush(cfg, st).1)
  {
    var shown := Flush(cfg, st).1;
    if st.buffer == "" {
      AppendNil(output);
      PassesOfPlaceholder(cfg.patterns, cfg.placeholder, "", false);
      PlaceholdersAreSealed(language, cfg.placeholder, output, shown);
    } else {
      WholeWordFlushed(cfg, language, st.buffer);
      OverflowKeepsSealed(language, cfg.placeholder, output, st.buffer);
    }
    AppendNil(output + shown);
  }

  lemma StepIsSealed(cfg: Config, language: Language, key: string, st: Option<State>, output: string, e: Event)
    requires Guards(cfg, language) && SealedRun(language, st, output)
    requires e.FlushAll? ==> Finished(cfg, language, Pending(st))
    ensures var (after, shown) := LoneStep(cfg, key, st, e);
            SealedRun(language, after, output + shown)
  {
    AppendNil(output);
    match e
    case Text(k, _, text) =>
      if k == key {
        FeedKeepsSealed(cfg, language, if st.Some? then st.value else INITIAL, text, output);
      }
    case FlushAll =>
      if st.Some? {
        FinishedFlushIsSealed(cfg, language, st.value, output);
      }
  }

  lemma UnusedIsSealed(language: Language, st: Option<State>)
    requires Unused(st)
    ensures SealedRun(language, st, "")
  {
  }

  lemma {:induction false} RunIsSealed(cfg: Config, language: Language, key: string, st: Option<State>, events: seq<Event>)
    requires Guards(cfg, language) && Unused(st) && FinishedFlushes(cfg, language, key, st, events)
    ensures var (after, shown) := Lone(cfg, key, st, events);
            SealedRun(language, after, shown)
    decreases |events|
  {
    if |events| == 0 {
      UnusedIsSealed(language, st);
    } else {
      var k := |events| - 1;
      EarlierFlushes(cfg, language, key, st, events, k);
      RunIsSealed(cfg, language, key, st, events[..k]);
      var (mid, shown) := Lone(cfg, key, st, events[..k]);
      if events[k].FlushAll? {
        assert FinishedAt(cfg, language, key, st, events[..k]);
      }
      StepIsSealed(cfg, language, key, mid, shown, events[k]);
    }
  }

  lemma EarlierFlushes(cfg: Config, language: Language, key: string, st: Option<State>, events: seq<Event>, k: nat)
    requires cfg.WellFormed() && 1 <= language.length && k <= |events|
    requires FinishedFlushes(cfg, language, key, st, events)
    ensures FinishedFlushes(cfg, language, key, st, events[..k])
  {
    forall j | 0 <= j < k && events[..k][j].FlushAll?
      ensures FinishedAt(cfg, language, key, st, events[..k][..j])
    {
      assert events[..k][..j] == events[..j];
      assert FinishedAt(cfg, language, key, st, events[..j]);
    }
  }

  /** Main result: over any run of events, with any number of flushes, if every flush but the last finds the
      channel finished, the text the channel shows in the whole run contains no word. */
  lemma NoWordAcrossFlushes(cfg: Settings, reg: Registry, events: seq<Event>, key: string, language: Language)
    requires cfg.WellFormed() && reg.Valid() && Unused(reg.StateOf(key)) && Guards(cfg.For(key), language)
    requires FinishedFlushes(cfg.For(key), language, key, reg.StateOf(key), events)
    ensures NoWordIn(language, TextFor(HandleAll(cfg, reg, events + [FlushAll]).1, key))
  {
    var st := reg.StateOf(key);
    ChannelsAreIsolated(cfg, reg, events + [FlushAll], key);
    LoneAppend(cfg.For(key), key, st, events, [FlushAll]);
    RunIsSealed(cfg.For(key), language, key, st, events);
    var (after, shown) := Lone(cfg.For(key), key, st, events);
    LoneOne(cfg.For(key), key, after, FlushAll);
    if after.Some? {
      FlushLeavesNoWord(cfg.For(key), language, after.value, shown);
    } else {
      assert NoWordIn(language, "");
    }
  }

  // ---- A word cut by a flush ------------------------------------------------------------------

  lemma ShortTextStays(language: Language, placeholder: string, text: string)
    requires language.Valid() && |text| < language.length
    ensures Replace(language, placeholder, text) == text
  {
    AppendNil(text);
    PrefixKept(language, placeholder, text, "");
  }

  /** A text too short for a word, alone between two flushes, is shown as it is. */
  lemma ShortSegment(cfg: Config, language: Language, key: string, st: Option<State>, events: seq<Event>, text: string)
    requires Solo(cfg, language) && Unused(st) && |text| < language.length
    requires OnlyText(events) && PiecesOf(events, key) == [text]
    ensures var (after, shown) := Lone(cfg, key, st, events + [FlushAll]);
            shown == text && Unused(after)
  {
    LoneSegment(cfg, key, st, events);
    ShortProcess(cfg, language, PiecesOf(events, key), text);
  }

  /** One piece, and the flush after it. */
  function Segment(key: string, shape: Shape, text: string): seq<Event> {
    [Text(key, shape, text)] + [FlushAll]
  }

  lemma OnePiece(key: string, shape: Shape, text: string)
    ensures OnlyText([Text(key, shape, text)]) && PiecesOf([Text(key, shape, text)], key) == [text]
  {
    assert [Text(key, shape, text)][..0] == [];
  }

  lemma ShortProcess(cfg: Config, language: Language, chunks: seq<string>, text: string)
    requires Solo(cfg, language) && chunks == [text] && |text| < language.length
    ensures Process(cfg, INITIAL, chunks) == text
  {
    StreamingIsReplacement(cfg, language, chunks);
    ConcatSingle(text);
    ShortTextStays(language, cfg.placeholder, text);
  }

  /** A word cut in two by a flush leaves the channel whole. */
  lemma FlushCutsWord(cfg: Settings, reg: Registry, key: string, language: Language, shape: Shape, front: string, back: string)
    requires cfg.WellFormed() && reg.Valid() && Unused(reg.StateOf(key)) && Solo(cfg.For(key), language)
    requires |front| < language.length && |back| < language.length
    ensures TextFor(HandleAll(cfg, reg, Segment(key, shape, front) + Segment(key, shape, back)).1, key) == front + back
  {
    var one, two := Segment(key, shape, front), Segment(key, shape, back);
    ChannelsAreIsolated(cfg, reg, one + two, key);
    LoneAppend(cfg.For(key), key, reg.StateOf(key), one, two);
    OnePiece(key, shape, front);
    OnePiece(key, shape, back);
    ShortSegment(cfg.For(key), language, key, reg.StateOf(key), [Text(key, shape, front)], front);
    var mid := Lone(cfg.For(key), key, reg.StateOf(key), one).0;
    ShortSegment(cfg.For(key), language, key, mid, [Text(key, shape, back)], back);
  }

  /** So any social security number cut by a flush, such as the end of another block, is shown. */
  lemma FlushCutsNumber(cfg: Settings, reg: Registry, key: string, digit: char -> bool, shape: Shape, number: string, k: nat)
    requires cfg.WellFormed() && reg.Valid() && Unused(reg.StateOf(key))
    requires Solo(cfg.For(key), Ssn.Language(digit)) && Ssn.IsSsn(digit, number) && 0 < k < Ssn.SSN_LENGTH
    ensures TextFor(HandleAll(cfg, reg, Segment(key, shape, number[..k]) + Segment(key, shape, number[k..])).1, key) == number
  {
    FlushCutsWord(cfg, reg, key, Ssn.Language(digit), shape, number[..k], number[k..]);
    SplitsAndJoins(number, k);
  }

  // ---- Exactly when a flush is harmless -------------------------------------------------------

  /** Whatever comes between this flush and the next, the channel shows no word. */
  ghost predicate HarmlessFlush(cfg: Settings, reg: Registry, before: seq<Event>, key: string, language: Language)
    requires cfg.WellFormed() && reg.Valid() && 1 <= language.length
  {
    forall after: seq<Event> | OnlyText(after) :: NoWordShown(cfg, reg, before, after, key, language)
  }

  ghost predicate NoWordShown(cfg: Settings, reg: Registry, before: seq<Event>, after: seq<Event>, key: string, language: Language)
    requires cfg.WellFormed() && reg.Valid() && 1 <= language.length
  {
    NoWordIn(language, TextFor(HandleAll(cfg, reg, (before + [FlushAll] + after) + [FlushAll]).1, key))
  }

  lemma SoloGuards(cfg: Config, language: Language)
    requires Solo(cfg, language)
    ensures Guards(cfg, language)
  {
    RecognisesIsExact(cfg.patterns[0], language, cfg.maxHoldback);
  }

  /** One redactor never holds more than the beginning of one word, across flushes too. */
  lemma {:induction false} RunHoldsOneStart(cfg: Config, language: Language, key: string, st: Option<State>, events: seq<Event>)
    requires Solo(cfg, language) && Unused(st)
    ensures var after := Lone(cfg, key, st, events).0;
            after.Some? ==> HoldsOneStart(language, after.value)
    decreases |events|
  {
    if |events| > 0 {
      var k := |events| - 1;
      RunHoldsOneStart(cfg, language, key, st, events[..k]);
      var mid := Lone(cfg, key, st, events[..k]).0;
      if events[k].Text? && events[k].key == key {
        FeedHoldsOneStart(cfg, language, if mid.Some? then mid.value else INITIAL, events[k].text);
      }
    }
  }

  lemma FinishedAfter(cfg: Config, language: Language, key: string, st: Option<State>, before: seq<Event>, after: seq<Event>)
    requires cfg.WellFormed() && 1 <= language.length && OnlyText(after)
    requires FinishedFlushes(cfg, language, key, st, before) && FinishedAt(cfg, language, key, st, before)
    ensures FinishedFlushes(cfg, language, key, st, before + [FlushAll] + after)
  {
    var all := before + [FlushAll] + after;
    forall j | 0 <= j < |all|
      ensures all[j].FlushAll? ==> FinishedAt(cfg, language, key, st, all[..j])
    {
      if j > |before| {
        assert all[j] == after[j - |before| - 1] && after[j - |before| - 1] in after;
      } else if j == |before| {
        assert all[..j] == before;
      } else {
        assert all[..j] == before[..j] && all[j] == before[j];
        assert before[j].FlushAll? ==> FinishedAt(cfg, language, key, st, before[..j]);
      }
    }
  }

  lemma ShortFlush(cfg: Config, language: Language, st: State)
    requires Solo(cfg, language) && |st.buffer| < language.length
    ensures Flush(cfg, st).1 == st.buffer && Alike(Flush(cfg, st).0, INITIAL)
  {
    SoloPasses(cfg, language, st.buffer, false);
    ReplaceIsSettle(language, cfg.placeholder, st.buffer);
    ShortTextStays(language, cfg.placeholder, st.buffer);
  }

  /** The text shown when a channel is flushed early, gets one more piece, and is flushed again. */
  lemma ShownAfterFlush(cfg: Config, language: Language, key: string, st: Option<State>, before: seq<Event>,
                        mid: State, shown: string, piece: string)
    requires Solo(cfg, language) && Unused(st) && Lone(cfg, key, st, before) == (Some(mid), shown)
    requires |mid.buffer| < language.length && |piece| < language.length
    ensures Lone(cfg, key, st, (before + [FlushAll] + [Text(key, DefaultShape, piece)]) + [FlushAll]).1
         == (shown + mid.buffer) + piece
  {
    LoneOne(cfg, key, Some(mid), FlushAll);
    ShortFlush(cfg, language, mid);
    LoneAppend(cfg, key, st, before, [FlushAll]);
    LoneAppend(cfg, key, st, before + [FlushAll], Segment(key, DefaultShape, piece));
    OnePiece(key, DefaultShape, piece);
    ShortSegment(cfg, language, key, Some(Flush(cfg, mid).0), [Text(key, DefaultShape, piece)], piece);
    Associative(before + [FlushAll], [Text(key, DefaultShape, piece)], [FlushAll]);
  }

  /** A flush that finds the beginning of a word pending lets some word out. */
  lemma UnfinishedLeaks(cfg: Settings, reg: Registry, before: seq<Event>, key: string, language: Language)
      returns (after: seq<Event>)
    requires cfg.WellFormed() && reg.Valid() && Unused(reg.StateOf(key))
    requires Solo(cfg.For(key), language) && Tight(language)
    requires !FinishedAt(cfg.For(key), language, key, reg.StateOf(key), before)
    ensures OnlyText(after) && !NoWordShown(cfg, reg, before, after, key, language)
  {
    var c, st := cfg.For(key), reg.StateOf(key);
    var (mid, shown) := Lone(c, key, st, before);
    var buffer := mid.value.buffer;
    RunHoldsOneStart(c, language, key, st, before);
    var piece := UnfinishedPiece(language, buffer);
    after := [Text(key, DefaultShape, piece)];
    ShownAfterFlush(c, language, key, st, before, mid.value, shown, piece);
    ChannelsAreIsolated(cfg, reg, (before + [FlushAll] + after) + [FlushAll], key);
    JoinedWord(language, shown, buffer, piece);
  }

  /** What is missing from a beginning. */
  lemma UnfinishedPiece(language: Language, buffer: string) returns (piece: string)
    requires language.Valid() && Tight(language) && language.StartsAt(buffer, 0) && |buffer| <= language.length
    ensures language.WordAt(buffer + piece, 0) && |buffer + piece| == language.length
  {
    assert buffer[0..Min(language.length, |buffer|)] == buffer;
    var word := Completion(language, buffer);
    piece := word[|buffer|..];
    SplitsAndJoins(word, |buffer|);
    assert buffer + piece == word;
    assert word[0..language.length] == word;
  }

  lemma JoinedWord(language: Language, shown: string, front: string, back: string)
    requires language.Valid() && language.WordAt(front + back, 0)
    ensures !NoWordIn(language, (shown + front) + back)
  {
    Associative(shown, front, back);
    ShiftPositions(language, shown, front + back, 0);
    assert language.WordAt((shown + front) + back, |shown|);
  }

  /** Main result: with one detector, and no unfinished word at any earlier flush, a flush is harmless, whatever
      the channel gets before the next one, exactly when it finds nothing pending, or a whole word. */
  lemma HarmlessExactlyWhenFinished(cfg: Settings, reg: Registry, before: seq<Event>, key: string, language: Language)
    requires cfg.WellFormed() && reg.Valid() && Unused(reg.StateOf(key))
    requires Solo(cfg.For(key), language) && Tight(language)
    requires FinishedFlushes(cfg.For(key), language, key, reg.StateOf(key), before)
    ensures HarmlessFlush(cfg, reg, before, key, language)
      <==> Finished(cfg.For(key), language, Pending(Lone(cfg.For(key), key, reg.StateOf(key), before).0))
  {
    if FinishedAt(cfg.For(key), language, key, reg.StateOf(key), before) {
      SoloGuards(cfg.For(key), language);
      forall after: seq<Event> | OnlyText(after)
        ensures NoWordShown(cfg, reg, before, after, key, language)
      {
        FinishedAfter(cfg.For(key), language, key, reg.StateOf(key), before, after);
        NoWordAcrossFlushes(cfg, reg, before + [FlushAll] + after, key, language);
      }
    } else {
      var after := UnfinishedLeaks(cfg, reg, before, key, language);
      assert !NoWordShown(cfg, reg, before, after, key, language);
    }
  }
}

/** No word of a fixed-length language ever leaves a redactor that recognises it, however the
    text is cut and whatever other detectors run beside it. */
module RedactorSafety {
  import opened Basics
  import opened Detectors
  import opened Pieces
  import opened Redaction

  /** No word starts, or could still start, before position `m`. */
  ghost predicate NoStartBefore(language: Language, text: string, m: nat) {
    forall i: nat | i < m :: !language.StartsAt(text, i)
  }

  /** Words stand nowhere, except possibly flush against the end when `tail` is set. */
  ghost predicate WordsOnlyAtTail(language: Language, text: string, tail: bool) {
    forall i: nat :: language.WordAt(text, i) ==> tail && i + language.length == |text|
  }

  ghost predicate NoWordIn(language: Language, text: string) {
    forall i: nat :: !language.WordAt(text, i)
  }

  // ---- Positions and edits -------------------------------------------------------------------

  lemma WordStarts(language: Language, text: string, i: nat)
    requires language.Valid() && language.WordAt(text, i)
    ensures language.StartsAt(text, i)
  {
  }

  /** Whether a word stands or starts somewhere does not depend on what precedes it. */
  lemma ShiftPositions(language: Language, x: string, y: string, j: nat)
    requires language.Valid()
    ensures language.WordAt(x + y, |x| + j) == language.WordAt(y, j)
    ensures language.StartsAt(x + y, |x| + j) == language.StartsAt(y, j)
  {
    if j < |y| {
      assert (x + y)[|x| + j..Min(|x| + j + language.length, |x + y|)] == y[j..Min(j + language.length, |y|)];
    }
  }

  /** What cannot start a word does not become able to when more text arrives. */
  lemma ExtensionStartsNothing(language: Language, text: string, more: string, i: nat)
    requires language.Valid() && i < |text| && !language.StartsAt(text, i)
    ensures !language.StartsAt(text + more, i)
  {
    var whole := (text + more)[i..Min(i + language.length, |text + more|)];
    var seen := Min(i + language.length, |text|) - i;
    SliceOfSlice(text + more, i, Min(i + language.length, |text + more|), 0, seen);
    SliceOfAppend(text, more, i, i + seen);
    assert whole[0..seen] == whole[..seen];
  }

  /** A start whose characters precede the placeholder does not depend on what follows it. */
  lemma StartBeforePlaceholder(language: Language, x: string, placeholder: string, y: string, z: string, i: nat)
    requires language.Valid() && language.Avoids(placeholder) && i < |x|
    requires language.StartsAt(x + placeholder + y, i)
    ensures language.WordAt(x, i) && language.WordAt(x + z, i) && language.StartsAt(x + z, i)
  {
    var text := x + placeholder + y;
    var word := text[i..Min(i + language.length, |text|)];
    assert text[|x|] == placeholder[0];
    assert |word| <= |x| - i;
    assert x[i..i + language.length] == word && (x + z)[i..i + language.length] == word;
  }

  lemma PlaceholderStartsNothing(language: Language, x: string, placeholder: string, y: string, i: nat)
    requires language.Valid() && language.Avoids(placeholder) && |x| <= i < |x| + |placeholder|
    ensures !language.StartsAt(x + placeholder + y, i)
  {
    var text := x + placeholder + y;
    var head := text[i..Min(i + language.length, |text|)];
    assert head[0] == placeholder[i - |x|];
  }

  /** Replacing spans by placeholders opens no start before position `m` of the kept prefix `x`. */
  lemma {:induction false} EditOpensNoStart(language: Language, placeholder: string, x: string, ps: seq<Piece>, m: nat)
    requires language.Valid() && language.Avoids(placeholder) && m <= |x|
    requires forall p | p in ps :: !p.Dropped?
    requires NoStartBefore(language, x + Source(ps), m)
    ensures NoStartBefore(language, x + Shown(ps, placeholder), m)
    decreases |ps|
  {
    if ps == [] {
    } else if ps[0].Kept? {
      assert x + Source(ps) == (x + [ps[0].c]) + Source(ps[1..]);
      assert x + Shown(ps, placeholder) == (x + [ps[0].c]) + Shown(ps[1..], placeholder);
      EditOpensNoStart(language, placeholder, x + [ps[0].c], ps[1..], m);
    } else {
      var y := Shown(ps[1..], placeholder);
      assert x + Shown(ps, placeholder) == x + placeholder + y;
      forall i: nat | i < m
        ensures !language.StartsAt(x + placeholder + y, i)
      {
        if language.StartsAt(x + placeholder + y, i) {
          StartBeforePlaceholder(language, x, placeholder, y, Source(ps), i);
        }
      }
    }
  }

  /** Replacing spans creates no word: a word of the edited text ends where one of the original did. */
  lemma {:induction false} EditCreatesNoWord(language: Language, placeholder: string, x: string, ps: seq<Piece>, tail: bool)
    requires language.Valid() && language.Avoids(placeholder)
    requires forall p | p in ps :: !p.Dropped?
    requires tail && ps != [] ==> ps[|ps| - 1].Kept?
    requires WordsOnlyAtTail(language, x + Source(ps), tail)
    ensures WordsOnlyAtTail(language, x + Shown(ps, placeholder), tail)
    decreases |ps|
  {
    if |ps| > 0 {
      var first, rest := ps[0], ps[1..];
      if first.Kept? {
        Associative(x, [first.c], Source(rest));
        Associative(x, [first.c], Shown(rest, placeholder));
        EditCreatesNoWord(language, placeholder, x + [first.c], rest, tail);
      } else {
        AppendNil(Source(rest));
        AppendNil(Shown(rest, placeholder));
        Associative(x, first.source, Source(rest));
        TailOfWords(language, x + first.source, Source(rest), tail);
        EditCreatesNoWord(language, placeholder, "", rest, tail);
        LastKeptShows(ps);
        PlaceholderSplitsWords(language, x, placeholder, Shown(rest, placeholder), Source(ps), tail);
        Associative(x, placeholder, Shown(rest, placeholder));
      }
    }
  }

  /** Words of `x + placeholder + y` are words of `y`, or lie inside `x` where `x + z` already forbids them. */
  lemma PlaceholderSplitsWords(language: Language, x: string, placeholder: string, y: string, z: string, tail: bool)
    requires language.Valid() && language.Avoids(placeholder)
    requires tail ==> z != ""
    requires WordsOnlyAtTail(language, x + z, tail) && WordsOnlyAtTail(language, y, tail)
    ensures WordsOnlyAtTail(language, x + placeholder + y, tail)
  {
    var text := x + placeholder + y;
    forall i: nat | language.WordAt(text, i)
      ensures tail && i + language.length == |text|
    {
      WordStarts(language, text, i);
      if i < |x| {
        StartBeforePlaceholder(language, x, placeholder, y, z, i);
        assert false;
      } else if i < |x| + |placeholder| {
        PlaceholderStartsNothing(language, x, placeholder, y, i);
        assert false;
      } else {
        var j := i - |x| - |placeholder|;
        assert text[i..i + language.length] == y[j..j + language.length];
        assert language.WordAt(y, j);
      }
    }
  }

  lemma TailOfWords(language: Language, x: string, y: string, tail: bool)
    requires WordsOnlyAtTail(language, x + y, tail)
    ensures WordsOnlyAtTail(language, y, tail)
  {
    forall i: nat | language.WordAt(y, i)
      ensures tail && i + language.length == |y|
    {
      assert (x + y)[|x| + i..|x| + i + language.length] == y[i..i + language.length];
      assert language.WordAt(x + y, |x| + i);
    }
  }

  lemma {:induction false} LastKeptShows(ps: seq<Piece>)
    requires ps != []
    ensures ps[|ps| - 1].Kept? ==> Source(ps) != ""
  {
    if |ps| > 1 {
      LastKeptShows(ps[1..]);
    }
  }

  // ---- One pass, and all passes ---------------------------------------------------------------

  /** A pass accounts for every character it was given, drops none, and leaves a protected tail in place. */
  lemma PassAccounts(p: Pattern, text: string, protectTail: bool)
    requires p.WellFormed()
    ensures Source(Pass(p, text, protectTail)) == text
    ensures forall q | q in Pass(p, text, protectTail) :: !q.Dropped?
    ensures var ps := Pass(p, text, protectTail); protectTail && text != "" ==> ps != [] && ps[|ps| - 1].Kept?
  {
    var spans := FindSpans(p, text, protectTail, 0);
    CutAccounts(text, 0, spans);
    CutDropsNothing(text, 0, spans);
    assert text[0..] == text;
    if protectTail && text != "" {
      CutKeepsTail(text, 0, spans);
    }
  }

  /** For a language's own detector, the next span replaced is its next word that is not a protected tail. */
  lemma {:induction false} OwnNextSpan(language: Language, p: Pattern, text: string, protectTail: bool, from: nat)
    requires language.Valid() && p.WellFormed() && Finds(p, language)
    ensures var r := NextSpan(p, text, protectTail, from);
            && (r.Some? ==> language.WordAt(text, r.value.start) && r.value.end == r.value.start + language.length)
            && (forall i: nat | from <= i && (r.Some? ==> i < r.value.start) ::
                  language.WordAt(text, i) ==> protectTail && i + language.length == |text|)
    decreases |text| + 1 - from
  {
    if from <= |text| {
      assert p.search(text, from) == language.FirstWord(text, from);
      var found := language.FirstWord(text, from);
      if found.Some? {
        var end := p.ValidatedEnd(text, found.value.start, found.value.end);
        if protectTail && end.value == |text| {
          OwnNextSpan(language, p, text, protectTail, found.value.start + 1);
        }
      }
    }
  }

  /** The pass of the language's own detector leaves no word behind, except a protected one at the tail. */
  lemma {:induction false} OwnSpansClear(language: Language, p: Pattern, placeholder: string, text: string,
                                         protectTail: bool, position: nat)
    requires language.Valid() && language.Avoids(placeholder) && p.WellFormed() && Finds(p, language)
    requires position <= |text|
    ensures WordsOnlyAtTail(language, CutText(placeholder, text, position, FindSpans(p, text, protectTail, position)), protectTail)
    decreases |text| - position
  {
    OwnNextSpan(language, p, text, protectTail, position);
    match NextSpan(p, text, protectTail, position)
    case None =>
      SuffixWords(language, text, position, protectTail);
    case Some(Span(start, end)) =>
      OwnSpansClear(language, p, placeholder, text, protectTail, end);
      GapHasNoWord(language, text, position, start, protectTail);
      NoWordEither(language, text[position..start], placeholder,
                   CutText(placeholder, text, end, FindSpans(p, text, protectTail, end)), protectTail);
  }

  lemma SuffixWords(language: Language, text: string, position: nat, tail: bool)
    requires position <= |text|
    requires forall i: nat | position <= i :: language.WordAt(text, i) ==> tail && i + language.length == |text|
    ensures WordsOnlyAtTail(language, text[position..], tail)
  {
    forall i: nat | language.WordAt(text[position..], i)
      ensures tail && i + language.length == |text[position..]|
    {
      assert text[position..][i..i + language.length] == text[position + i..position + i + language.length];
      assert language.WordAt(text, position + i);
    }
  }

  lemma GapHasNoWord(language: Language, text: string, position: nat, start: nat, tail: bool)
    requires language.Valid() && position <= start && start + language.length <= |text|
    requires forall i: nat | position <= i < start ::
               language.WordAt(text, i) ==> tail && i + language.length == |text|
    ensures WordsOnlyAtTail(language, text[position..start], false)
  {
    var gap := text[position..start];
    forall i: nat
      ensures !language.WordAt(gap, i)
    {
      if i + language.length <= |gap| {
        SliceOfSlice(text, position, start, i, i + language.length);
        assert language.WordAt(text, position + i) == language.WordAt(gap, i);
      }
    }
  }

  lemma NoWordEither(language: Language, x: string, placeholder: string, y: string, tail: bool)
    requires language.Valid() && language.Avoids(placeholder)
    requires WordsOnlyAtTail(language, x, false) && WordsOnlyAtTail(language, y, tail)
    ensures WordsOnlyAtTail(language, x + placeholder + y, tail)
  {
    forall i: nat
      ensures !language.WordAt(x + placeholder, i)
    {
      assert x + placeholder + "" == x + placeholder && x + "" == x;
      if language.WordAt(x + placeholder, i) {
        WordStarts(language, x + placeholder, i);
        if i < |x| {
          StartBeforePlaceholder(language, x, placeholder, "", "", i);
          assert false;
        } else {
          PlaceholderStartsNothing(language, x, placeholder, "", i);
          assert false;
        }
      }
    }
    PlaceholderSplitsWords(language, x, placeholder, y, placeholder, tail);
  }

  /** Every pass keeps already settled positions settled. */
  lemma {:induction false} PassesOpenNoStart(language: Language, ps: seq<Pattern>, placeholder: string, x: string,
                                             text: string, protectTail: bool)
    requires language.Valid() && language.Avoids(placeholder)
    requires forall i | 0 <= i < |ps| :: ps[i].WellFormed()
    requires NoStartBefore(language, x + text, |x|)
    ensures NoStartBefore(language, x + Passes(ps, placeholder, text, protectTail), |x|)
    decreases |ps|
  {
    if ps != [] {
      var pieces := Pass(ps[0], text, protectTail);
      PassAccounts(ps[0], text, protectTail);
      EditOpensNoStart(language, placeholder, x, pieces, |x|);
      PassesOpenNoStart(language, ps[1..], placeholder, x, Shown(pieces, placeholder), protectTail);
    }
  }

  /** Once the words are gone, no later pass brings one back. */
  lemma {:induction false} PassesCreateNoWord(language: Language, ps: seq<Pattern>, placeholder: string,
                                              text: string, protectTail: bool)
    requires language.Valid() && language.Avoids(placeholder)
    requires forall i | 0 <= i < |ps| :: ps[i].WellFormed()
    requires WordsOnlyAtTail(language, text, protectTail)
    ensures WordsOnlyAtTail(language, Passes(ps, placeholder, text, protectTail), protectTail)
    decreases |ps|
  {
    if ps != [] {
      var pieces := Pass(ps[0], text, protectTail);
      PassAccounts(ps[0], text, protectTail);
      assert "" + text == text && "" + Shown(pieces, placeholder) == Shown(pieces, placeholder);
      if text == "" && protectTail {
        EmptyHasNoWord(language, text);
        EditCreatesNoWord(language, placeholder, "", pieces, false);
      } else {
        EditCreatesNoWord(language, placeholder, "", pieces, protectTail);
      }
      PassesCreateNoWord(language, ps[1..], placeholder, Shown(pieces, placeholder), protectTail);
    }
  }

  lemma EmptyHasNoWord(language: Language, text: string)
    requires language.Valid() && text == ""
    ensures WordsOnlyAtTail(language, text, false)
  {
  }

  /** With the language's detector anywhere in the list, the passes leave words at a protected tail only. */
  lemma {:induction false} PassesClear(language: Language, ps: seq<Pattern>, k: nat, placeholder: string,
                                       text: string, protectTail: bool)
    requires language.Valid() && language.Avoids(placeholder)
    requires forall i | 0 <= i < |ps| :: ps[i].WellFormed()
    requires k < |ps| && Finds(ps[k], language)
    ensures WordsOnlyAtTail(language, Passes(ps, placeholder, text, protectTail), protectTail)
    decreases k
  {
    var next := Shown(Pass(ps[0], text, protectTail), placeholder);
    if k == 0 {
      OwnSpansClear(language, ps[0], placeholder, text, protectTail, 0);
      CutShows(placeholder, text, 0, FindSpans(ps[0], text, protectTail, 0));
      PassesCreateNoWord(language, ps[1..], placeholder, next, protectTail);
    } else {
      PassesClear(language, ps[1..], k - 1, placeholder, next, protectTail);
    }
  }

  // ---- The holdback point ---------------------------------------------------------------------

  lemma ScanHitsStart(language: Language, text: string, from: nat)
    requires language.Valid() && from < |text| && WordsOnlyAtTail(language, text, true)
    requires language.StartsAt(text, from)
    ensures EarliestUnsafe(language.Scan(text, from), |text|) <= from
  {
    var hits := language.Scan(text, from);
    assert hits[0].start == from && hits[0].end == |text|;
  }

  /** The scan passes over everything before the first start. */
  lemma {:induction false} ScanReaches(language: Language, text: string, from: nat, i: nat) returns (k: nat)
    requires language.Valid() && from <= i < |text| && language.StartsAt(text, i)
    ensures from <= k <= i && language.StartsAt(text, k) && language.Scan(text, from) == language.Scan(text, k)
    decreases |text| - from
  {
    if language.StartsAt(text, from) {
      k := from;
    } else {
      if language.WordAt(text, from) {
        WordStarts(language, text, from);
      }
      k := ScanReaches(language, text, from + 1, i);
    }
  }

  /** After the redaction pass, every position a word could still start from is at or after the holdback
      point of the language's scan. Before the pass this fails: a settled word hides one that overlaps it. */
  lemma ScanHoldsStarts(language: Language, text: string, from: nat, i: nat)
    requires language.Valid() && from <= i < |text|
    requires WordsOnlyAtTail(language, text, true)
    requires language.StartsAt(text, i)
    ensures EarliestUnsafe(language.Scan(text, from), |text|) <= i
  {
    var k := ScanReaches(language, text, from, i);
    ScanHitsStart(language, text, k);
  }

  lemma OnlyHit(only: Hit, hit: Hit)
    requires hit in [only]
    ensures hit == only
  {
  }

  lemma {:induction false} UnsafeHitStarts(language: Language, text: string, from: nat, hit: Hit)
    requires language.Valid() && from <= |text| && hit in language.Scan(text, from)
    requires (hit.partial || hit.end == |text|) && hit.start < |text|
    ensures language.StartsAt(text, hit.start) && |text| <= hit.start + language.length
    decreases |text| - from
  {
    if from < |text| {
      if language.WordAt(text, from) {
        InCons(Hit(from, from + language.length, false), language.Scan(text, from + language.length), hit);
        if hit == Hit(from, from + language.length, false) {
          WordStarts(language, text, from);
        } else {
          UnsafeHitStarts(language, text, from + language.length, hit);
        }
      } else if language.StartsAt(text, from) {
        OnlyHit(Hit(from, |text|, true), hit);
      } else {
        UnsafeHitStarts(language, text, from + 1, hit);
      }
    } else {
      OnlyHit(Hit(from, from, true), hit);
    }
  }

  /** Redacting first is what makes the holdback scan right: on the unredacted text the scan resumes
      after a settled word and misses a word that starts inside it. */
  lemma ScanAloneMissesOverlaps(language: Language, text: string, i: nat)
    requires language.Valid()
    requires language.WordAt(text, 0) && language.length < |text| < i + language.length && 0 < i < language.length
    requires language.StartsAt(text, i)
    requires forall j: nat | language.length <= j :: !language.StartsAt(text, j)
    ensures EarliestUnsafe(language.Scan(text, 0), |text|) == |text|
  {
    ScanOfNothing(language, text, language.length);
    var rest := language.Scan(text, language.length);
    var hits := language.Scan(text, 0);
    assert hits == [Hit(0, language.length, false)] + rest;
    assert forall k | 0 <= k < |hits| && (hits[k].partial || hits[k].end == |text|) :: hits[k].start == |text|;
  }

  lemma {:induction false} ScanOfNothing(language: Language, text: string, from: nat)
    requires language.Valid() && from <= |text|
    requires forall j: nat | from <= j :: !language.StartsAt(text, j)
    ensures language.Scan(text, from) == [Hit(|text|, |text|, true)]
    decreases |text| - from
  {
    if from < |text| {
      if language.WordAt(text, from) {
        WordStarts(language, text, from);
      }
      ScanOfNothing(language, text, from + 1);
    }
  }

  // ---- Whole streams --------------------------------------------------------------------------

  /** Nothing emitted can be the beginning of a word, whatever the buffer and the future hold. */
  ghost predicate Sealed(language: Language, st: State, output: string) {
    && NoStartBefore(language, output + st.buffer, |output|)
    && (st.suppressing ==> st.buffer == "")
  }

  /** The language's detector is among the configured ones, and the placeholder is foreign to it. */
  ghost predicate Guards(cfg: Config, language: Language) {
    && cfg.WellFormed() && language.Valid() && language.Avoids(cfg.placeholder)
    && exists k :: 0 <= k < |cfg.patterns| && Catches(cfg.patterns[k], language)
  }

  lemma ExtendSealed(language: Language, output: string, buffer: string, more: string)
    requires language.Valid() && NoStartBefore(language, output + buffer, |output|)
    ensures NoStartBefore(language, output + (buffer + more), |output|)
  {
    assert output + buffer + more == output + (buffer + more);
    forall i: nat | i < |output|
      ensures !language.StartsAt(output + (buffer + more), i)
    {
      ExtensionStartsNothing(language, output + buffer, more, i);
    }
  }

  lemma JoinedNoStart(language: Language, x: string, y: string, m: nat)
    requires language.Valid() && NoStartBefore(language, x + y, |x|) && NoStartBefore(language, y, m)
    ensures NoStartBefore(language, x + y, |x| + m)
  {
    forall i: nat | i < |x| + m
      ensures !language.StartsAt(x + y, i)
    {
      if |x| <= i {
        ShiftPositions(language, x, y, i - |x|);
      }
    }
  }

  lemma NoStartBeforeHoldback(cfg: Config, language: Language, redacted: string)
    requires Guards(cfg, language) && WordsOnlyAtTail(language, redacted, true)
    ensures NoStartBefore(language, redacted, HoldbackIndex(cfg.patterns, redacted))
  {
    forall i: nat | i < HoldbackIndex(cfg.patterns, redacted)
      ensures !language.StartsAt(redacted, i)
    {
      HeldFromFirstStart(cfg, language, redacted, i);
    }
  }

  /** Emitting everything before the holdback point keeps the stream sealed. */
  lemma SplitKeepsSealed(cfg: Config, language: Language, output: string, redacted: string)
    requires Guards(cfg, language)
    requires NoStartBefore(language, output + redacted, |output|)
    requires WordsOnlyAtTail(language, redacted, true)
    ensures var split := HoldbackIndex(cfg.patterns, redacted);
            NoStartBefore(language, (output + redacted[..split]) + redacted[split..], |output| + split)
  {
    var split := HoldbackIndex(cfg.patterns, redacted);
    NoStartBeforeHoldback(cfg, language, redacted);
    JoinedNoStart(language, output, redacted, split);
    SplitsAndJoins(redacted, split);
    Associative(output, redacted[..split], redacted[split..]);
  }

  lemma HeldFromFirstStart(cfg: Config, language: Language, redacted: string, i: nat)
    requires Guards(cfg, language) && WordsOnlyAtTail(language, redacted, true)
    requires i < HoldbackIndex(cfg.patterns, redacted)
    ensures !language.StartsAt(redacted, i)
  {
    var k :| 0 <= k < |cfg.patterns| && Catches(cfg.patterns[k], language);
    if language.StartsAt(redacted, i) {
      ScanHoldsStarts(language, redacted, 0, i);
    }
  }

  /** Giving up on an over-long candidate keeps the stream sealed: a placeholder stands for all that was held. */
  lemma OverflowKeepsSealed(language: Language, placeholder: string, output: string, held: string)
    requires language.Valid() && language.Avoids(placeholder)
    requires NoStartBefore(language, output + held, |output|)
    ensures NoStartBefore(language, output + placeholder, |output + placeholder|)
  {
    Single(Hidden(held), placeholder);
    EditOpensNoStart(language, placeholder, output, [Hidden(held)], |output|);
    assert output + placeholder + "" == output + placeholder;
    forall i: nat | |output| <= i < |output + placeholder|
      ensures !language.StartsAt(output + placeholder, i)
    {
      PlaceholderStartsNothing(language, output, placeholder, "", i);
    }
  }

  lemma ReleaseKeepsSealed(cfg: Config, language: Language, stats: Stats, redacted: string, output: string)
    requires Guards(cfg, language)
    requires NoStartBefore(language, output + redacted, |output|)
    requires WordsOnlyAtTail(language, redacted, true)
    ensures Sealed(language, Release(cfg, stats, redacted).0, output + Release(cfg, stats, redacted).1)
  {
    SplitKeepsSealed(cfg, language, output, redacted);
    var split := HoldbackIndex(cfg.patterns, redacted);
    var emitted, held := output + redacted[..split], redacted[split..];
    if |held| > cfg.maxHoldback {
      OverflowKeepsSealed(language, cfg.placeholder, emitted, held);
      Associative(output, redacted[..split], cfg.placeholder);
      AppendNil(emitted + cfg.placeholder);
    }
  }

  lemma AbsorbKeepsSealed(cfg: Config, language: Language, buffer: string, stats: Stats, text: string, output: string)
    requires Guards(cfg, language) && NoStartBefore(language, output + buffer, |output|)
    ensures Sealed(language, Absorb(cfg, buffer, stats, text).0, output + Absorb(cfg, buffer, stats, text).1)
  {
    var k :| 0 <= k < |cfg.patterns| && Catches(cfg.patterns[k], language);
    var redacted := Passes(cfg.patterns, cfg.placeholder, buffer + text, true);
    var counts := PassCounts(cfg.patterns, cfg.placeholder, buffer + text, true, stats.counts);
    ExtendSealed(language, output, buffer, text);
    PassesOpenNoStart(language, cfg.patterns, cfg.placeholder, output, buffer + text, true);
    PassesClear(language, cfg.patterns, k, cfg.placeholder, buffer + text, true);
    ReleaseKeepsSealed(cfg, language, stats.(counts := counts), redacted, output);
  }

  lemma FeedKeepsSealed(cfg: Config, language: Language, st: State, text: string, output: string)
    requires Guards(cfg, language) && Sealed(language, st, output)
    ensures Sealed(language, Feed(cfg, st, text).0, output + Feed(cfg, st, text).1)
  {
    AppendNil(output);
    if text != "" {
      var (arrived, rest) := Arrive(cfg, st, text);
      if rest != "" {
        AbsorbKeepsSealed(cfg, language, arrived.buffer, arrived.stats, rest, output);
      }
    }
  }

  lemma {:induction false} FeedAllKeepsSealed(cfg: Config, language: Language, chunks: seq<string>)
    requires Guards(cfg, language)
    ensures Sealed(language, FeedAll(cfg, INITIAL, chunks).0, FeedAll(cfg, INITIAL, chunks).1)
    decreases |chunks|
  {
    if chunks != [] {
      FeedAllKeepsSealed(cfg, language, chunks[..|chunks| - 1]);
      var before := FeedAll(cfg, INITIAL, chunks[..|chunks| - 1]);
      FeedKeepsSealed(cfg, language, before.0, chunks[|chunks| - 1], before.1);
    }
  }

  /** At every moment of a stream, what has been emitted contains no word, and cannot be completed into one
      by anything that is still to come. */
  lemma NothingEmittedCanBecomeAWord(cfg: Config, language: Language, chunks: seq<string>, future: string)
    requires Guards(cfg, language)
    ensures var output := FeedAll(cfg, INITIAL, chunks).1;
            forall i: nat | i < |output| :: !language.WordAt(output + FeedAll(cfg, INITIAL, chunks).0.buffer + future, i)
  {
    FeedAllKeepsSealed(cfg, language, chunks);
    var st, output := FeedAll(cfg, INITIAL, chunks).0, FeedAll(cfg, INITIAL, chunks).1;
    forall i: nat | i < |output|
      ensures !language.WordAt(output + st.buffer + future, i)
    {
      ExtensionStartsNothing(language, output + st.buffer, future, i);
      if language.WordAt(output + st.buffer + future, i) {
        WordStarts(language, output + st.buffer + future, i);
      }
    }
  }

  /** Main result: for every cut of every text, and any companions, a whole stream contains no word. */
  lemma NoWordEverLeaves(cfg: Config, language: Language, chunks: seq<string>)
    requires Guards(cfg, language)
    ensures NoWordIn(language, Process(cfg, INITIAL, chunks))
  {
    FeedAllKeepsSealed(cfg, language, chunks);
    var st, output := FeedAll(cfg, INITIAL, chunks).0, FeedAll(cfg, INITIAL, chunks).1;
    FlushLeavesNoWord(cfg, language, st, output);
  }

  lemma FlushLeavesNoWord(cfg: Config, language: Language, st: State, output: string)
    requires Guards(cfg, language) && Sealed(language, st, output)
    ensures NoWordIn(language, output + Flush(cfg, st).1)
  {
    var k :| 0 <= k < |cfg.patterns| && Catches(cfg.patterns[k], language);
    PassesOpenNoStart(language, cfg.patterns, cfg.placeholder, output, st.buffer, false);
    PassesClear(language, cfg.patterns, k, cfg.placeholder, st.buffer, false);
    SealedAndClear(language, output, Flush(cfg, st).1);
  }

  lemma SealedAndClear(language: Language, x: string, y: string)
    requires language.Valid() && NoStartBefore(language, x + y, |x|) && WordsOnlyAtTail(language, y, false)
    ensures NoWordIn(language, x + y)
  {
    forall i: nat
      ensures !language.WordAt(x + y, i)
    {
      if language.WordAt(x + y, i) {
        WordStarts(language, x + y, i);
        ShiftPositions(language, x, y, i - |x|);
      }
    }
  }
}

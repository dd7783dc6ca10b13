/** With two fixed-length detectors the cuts matter exactly when the later one can cut into a word of the
    earlier one: it settles a word there while the last character of the other has nothing after it yet. */
module TwoDetectors {
  import opened Basics
  import opened Detectors
  import opened Pieces
  import opened Redaction
  import opened RedactorSafety
  import opened Replacing
  import opened ManyDetectors
  import opened ChunkInvariance
  import Ssn

  /** Two detectors, that of `first` before that of `second`, with room for a word of either. */
  ghost predicate Pair(cfg: Config, first: Language, second: Language) {
    && cfg.WellFormed() && |cfg.patterns| == 2
    && first.Valid() && second.Valid() && first.Avoids(cfg.placeholder) && second.Avoids(cfg.placeholder)
    && Recognises(cfg.patterns[0], first) && Recognises(cfg.patterns[1], second)
    && first.length <= cfg.maxHoldback && second.length <= cfg.maxHoldback
  }

  lemma TwoCompatible(first: Language, second: Language)
    requires Tight(first) && Compatible(first, second)
    ensures AllCompatible([first, second])
  {
  }

  lemma CatchesTwo(cfg: Config, first: Language, second: Language)
    requires |cfg.patterns| == 2 && 1 <= first.length && 1 <= second.length
    requires Catches(cfg.patterns[0], first) && HoldsAtMost(cfg.patterns[0], cfg.maxHoldback)
    requires Catches(cfg.patterns[1], second) && HoldsAtMost(cfg.patterns[1], cfg.maxHoldback)
    ensures CatchesAll(cfg, [first, second])
  {
    var languages := [first, second];
    forall i | 0 <= i < 2
      ensures Catches(cfg.patterns[i], languages[i]) && HoldsAtMost(cfg.patterns[i], cfg.maxHoldback)
    {
      assert i == 0 || i == 1;
    }
  }

  lemma PairCatches(cfg: Config, first: Language, second: Language)
    requires Pair(cfg, first, second)
    ensures CatchesAll(cfg, [first, second])
  {
    RecognisesIsExact(cfg.patterns[0], first, cfg.maxHoldback);
    RecognisesIsExact(cfg.patterns[1], second, cfg.maxHoldback);
    CatchesTwo(cfg, first, second);
  }

  lemma PairIsListed(cfg: Config, first: Language, second: Language)
    requires Pair(cfg, first, second) && AllCompatible([first, second])
    ensures Listed(cfg, [first, second])
  {
    PairCatches(cfg, first, second);
  }

  /** Both replacements in turn. */
  function ReplaceBoth(first: Language, second: Language, placeholder: string, text: string): string
    requires 1 <= first.length && 1 <= second.length
  {
    Replace(second, placeholder, Replace(first, placeholder, text))
  }

  lemma PairPasses(cfg: Config, first: Language, second: Language, text: string, protectTail: bool)
    requires Pair(cfg, first, second)
    ensures Passes(cfg.patterns, cfg.placeholder, text, protectTail)
         == Settle(second, cfg.placeholder, Settle(first, cfg.placeholder, text, protectTail, 0), protectTail, 0)
  {
    var once := Settle(first, cfg.placeholder, text, protectTail, 0);
    PassIsSettle(first, cfg.patterns[0], cfg.placeholder, text, protectTail);
    PassIsSettle(second, cfg.patterns[1], cfg.placeholder, once, protectTail);
    var rest := cfg.patterns[1..];
    assert rest[0] == cfg.patterns[1] && |rest[1..]| == 0;
    assert Passes(rest, cfg.placeholder, once, protectTail) == Shown(Pass(cfg.patterns[1], once, protectTail), cfg.placeholder);
  }

  // ---- A foreign character settles all that precedes it ----------------------------------------

  /** No word contains `c`. */
  ghost predicate Foreign(language: Language, c: char) {
    forall s :: language.viable(s) ==> c !in s
  }

  lemma ForeignNotInWord(language: Language, x: string, c: char, i: nat)
    requires language.Valid() && Foreign(language, c)
    ensures language.WordAt(x + [c], i) == language.WordAt(x, i)
  {
    if i + language.length <= |x| {
      assert (x + [c])[i..i + language.length] == x[i..i + language.length];
    } else if i + language.length == |x| + 1 {
      assert (x + [c])[i..i + language.length][language.length - 1] == c;
    }
  }

  lemma {:induction false} SettleBeforeForeign(language: Language, placeholder: string, x: string, c: char, from: nat)
    requires language.Valid() && Foreign(language, c) && from <= |x|
    ensures Settle(language, placeholder, x + [c], true, from) == Settle(language, placeholder, x, false, from) + [c]
    decreases |x| - from
  {
    ForeignNotInWord(language, x, c, from);
    if from == |x| {
      assert (x + [c])[from] == c;
      AppendNil([c]);
    } else {
      SettleBeforeForeign(language, placeholder, x, c, if language.WordAt(x, from) then from + language.length else from + 1);
      OneBeforeForeign(language, placeholder, x, c, from);
    }
  }

  lemma OneBeforeForeign(language: Language, placeholder: string, x: string, c: char, from: nat)
    requires language.Valid() && from < |x| && language.WordAt(x + [c], from) == language.WordAt(x, from)
    requires var next := if language.WordAt(x, from) then from + language.length else from + 1;
             Settle(language, placeholder, x + [c], true, next) == Settle(language, placeholder, x, false, next) + [c]
    ensures Settle(language, placeholder, x + [c], true, from) == Settle(language, placeholder, x, false, from) + [c]
  {
    var next := if language.WordAt(x, from) then from + language.length else from + 1;
    Associative(if language.WordAt(x, from) then placeholder else [x[from]], Settle(language, placeholder, x, false, next), [c]);
  }

  ghost predicate HeldStart(language: Language, text: string, split: nat) {
    language.StartsAt(text, split) && |text| <= split + language.length
  }

  /** What the two detectors hold back is the beginning of one word. */
  lemma PairHolds(cfg: Config, first: Language, second: Language, text: string)
    requires Pair(cfg, first, second)
    ensures var split := HoldbackIndex(cfg.patterns, text);
            split < |text| ==> HeldStart(first, text, split) || HeldStart(second, text, split)
  {
    RecognisedHolds(cfg.patterns[0], first, text);
    RecognisedHolds(cfg.patterns[1], second, text);
    OneOfTwo(cfg.patterns, text);
  }

  lemma OneOfTwo(ps: seq<Pattern>, text: string)
    requires |ps| == 2
    ensures HoldbackIndex(ps, text) in {EarliestUnsafe(ps[0].scan(text), |text|), EarliestUnsafe(ps[1].scan(text), |text|), |text|}
  {
  }

  lemma HeldHasNoForeign(language: Language, x: string, c: char, split: nat)
    requires language.Valid() && Foreign(language, c) && split <= |x|
    ensures !HeldStart(language, x + [c], split)
  {
    var text := x + [c];
    var start := text[split..Min(split + language.length, |text|)];
    if split < |text| <= split + language.length {
      assert start[|start| - 1] == c;
    }
  }

  lemma NothingHeldBeforeForeign(cfg: Config, first: Language, second: Language, x: string, c: char)
    requires Pair(cfg, first, second) && Foreign(first, c) && Foreign(second, c)
    ensures HoldbackIndex(cfg.patterns, x + [c]) == |x + [c]|
  {
    var split := HoldbackIndex(cfg.patterns, x + [c]);
    if split < |x + [c]| {
      PairHolds(cfg, first, second, x + [c]);
      HeldHasNoForeign(first, x, c, split);
      HeldHasNoForeign(second, x, c, split);
    }
  }

  /** A piece that ends with a foreign character is redacted and emitted as a whole. */
  lemma FeedForeign(cfg: Config, first: Language, second: Language, st: State, x: string, c: char)
    requires Pair(cfg, first, second) && Foreign(first, c) && Foreign(second, c) && !st.suppressing
    ensures var (after, emitted) := Feed(cfg, st, x + [c]);
            && emitted == ReplaceBoth(first, second, cfg.placeholder, st.buffer + x) + [c]
            && after.buffer == "" && !after.suppressing
  {
    var all := st.buffer + x;
    Associative(st.buffer, x, [c]);
    PassesBeforeForeign(cfg, first, second, all, c);
    var shown := ReplaceBoth(first, second, cfg.placeholder, all) + [c];
    NothingHeldBeforeForeign(cfg, first, second, ReplaceBoth(first, second, cfg.placeholder, all), c);
    assert shown[..|shown|] == shown;
  }

  lemma PassesBeforeForeign(cfg: Config, first: Language, second: Language, x: string, c: char)
    requires Pair(cfg, first, second) && Foreign(first, c) && Foreign(second, c)
    ensures Passes(cfg.patterns, cfg.placeholder, x + [c], true) == ReplaceBoth(first, second, cfg.placeholder, x) + [c]
  {
    PairPasses(cfg, first, second, x + [c], true);
    SettleBeforeForeign(first, cfg.placeholder, x, c, 0);
    ReplaceIsSettle(first, cfg.placeholder, x);
    var once := Replace(first, cfg.placeholder, x);
    SettleBeforeForeign(second, cfg.placeholder, once, c, 0);
    ReplaceIsSettle(second, cfg.placeholder, once);
  }

  lemma EmptyFlush(cfg: Config, first: Language, second: Language, st: State)
    requires Pair(cfg, first, second) && st.buffer == ""
    ensures Flush(cfg, st).1 == ""
  {
    PairPasses(cfg, first, second, "", false);
  }

  lemma OnePiece(cfg: Config, text: string)
    requires cfg.WellFormed()
    ensures FeedAll(cfg, INITIAL, [text]) == (Feed(cfg, INITIAL, text).0, Feed(cfg, INITIAL, text).1)
  {
    var none := [text][..0];
    assert |none| == 0;
    AppendNil(Feed(cfg, INITIAL, text).1);
  }

  lemma TwoPieces(cfg: Config, one: string, two: string)
    requires cfg.WellFormed()
    ensures var (st, emitted) := Feed(cfg, INITIAL, one);
            FeedAll(cfg, INITIAL, [one, two]) == (Feed(cfg, st, two).0, emitted + Feed(cfg, st, two).1)
  {
    OnePiece(cfg, one);
    assert [one, two][..1] == [one];
  }

  /** Read in one piece, both replacements are complete. */
  lemma ReadWhole(cfg: Config, first: Language, second: Language, text: string, c: char)
    requires Pair(cfg, first, second) && Foreign(first, c) && Foreign(second, c)
    ensures Process(cfg, INITIAL, [text + [c]]) == ReplaceBoth(first, second, cfg.placeholder, text) + [c]
  {
    FeedForeign(cfg, first, second, INITIAL, text, c);
    AppendNil(text);
    OnePiece(cfg, text + [c]);
    EmptyFlush(cfg, first, second, Feed(cfg, INITIAL, text + [c]).0);
    AppendNil(ReplaceBoth(first, second, cfg.placeholder, text) + [c]);
  }

  /** Read in two pieces, the first is redacted with its tail protected. */
  lemma ReadInTwo(cfg: Config, first: Language, second: Language, text: string, c: char)
    requires Pair(cfg, first, second) && Foreign(first, c) && Foreign(second, c) && text != ""
    ensures var shown := Settle(second, cfg.placeholder, Settle(first, cfg.placeholder, text, true, 0), true, 0);
            var split := HoldbackIndex(cfg.patterns, shown);
            Process(cfg, INITIAL, [text, [c]])
            == shown[..split] + (ReplaceBoth(first, second, cfg.placeholder, shown[split..]) + [c])
  {
    var shown := Settle(second, cfg.placeholder, Settle(first, cfg.placeholder, text, true, 0), true, 0);
    var (st, emitted) := Feed(cfg, INITIAL, text);
    FeedProtected(cfg, first, second, text);
    FeedForeign(cfg, first, second, st, "", c);
    AppendNil([c]);
    AppendNil(st.buffer);
    TwoPieces(cfg, text, [c]);
    EmptyFlush(cfg, first, second, Feed(cfg, st, [c]).0);
    AppendNil(emitted + Feed(cfg, st, [c]).1);
  }

  lemma FeedProtected(cfg: Config, first: Language, second: Language, text: string)
    requires Pair(cfg, first, second) && text != ""
    ensures var shown := Settle(second, cfg.placeholder, Settle(first, cfg.placeholder, text, true, 0), true, 0);
            var split := HoldbackIndex(cfg.patterns, shown);
            var (st, emitted) := Feed(cfg, INITIAL, text);
            emitted == shown[..split] && st.buffer == shown[split..] && !st.suppressing
  {
    AppendNil(text);
    PairPasses(cfg, first, second, text, true);
    PairHolds(cfg, first, second, Passes(cfg.patterns, cfg.placeholder, text, true));
  }

  // ---- A word cut into ------------------------------------------------------------------------

  /** The only word of `first` in `text` is at `q` and touches the end; the first word of `second`, at `i`,
      overlaps it and ends before it; one of the two begins the text. */
  ghost predicate Undercut(first: Language, second: Language, text: string, q: nat, i: nat) {
    && first.WordAt(text, q) && q + first.length == |text|
    && (forall k: nat | k < q :: !first.WordAt(text, k))
    && second.WordAt(text, i) && q < i + second.length < |text|
    && (forall k: nat | k < i :: !second.WordAt(text, k))
    && (i == 0 || q == 0)
  }

  /** Any word cut into gives such a text: its own, or the two words together. */
  lemma FindUndercut(first: Language, second: Language, whole: string, i: nat, j: nat) returns (text: string, q: nat, p: nat)
    requires first.Valid() && second.Valid() && CutsInto(first, second, whole, i, j)
    ensures Undercut(first, second, text, q, p)
  {
    if i <= j {
      text, q := UndercutBefore(first, second, whole, i, j);
      p := 0;
    } else {
      text, p := UndercutInside(first, second, whole, i, j);
      q := 0;
    }
  }

  lemma UndercutInside(first: Language, second: Language, whole: string, i: nat, j: nat) returns (text: string, p: nat)
    requires first.Valid() && second.Valid() && CutsInto(first, second, whole, i, j) && j < i
    ensures Undercut(first, second, text, 0, p)
  {
    text := whole[j..j + first.length];
    SubWord(first, whole, j, text, 0);
    SubWord(second, whole, j, text, i - j);
    p := second.FirstWord(text, 0).value.start;
  }

  lemma UndercutBefore(first: Language, second: Language, whole: string, i: nat, j: nat) returns (text: string, q: nat)
    requires first.Valid() && second.Valid() && CutsInto(first, second, whole, i, j) && i <= j
    ensures Undercut(first, second, text, q, 0)
  {
    var both := whole[i..j + first.length];
    SubWord(first, whole, i, both, j - i);
    SubWord(second, whole, i, both, 0);
    q := first.FirstWord(both, 0).value.start;
    SubWord(first, whole, i, both, q);
    text := both[..q + first.length];
    SubWord(first, both, 0, text, q);
    SubWord(second, both, 0, text, 0);
    forall k: nat | k < q
      ensures !first.WordAt(text, k)
    {
      SubWord(first, both, 0, text, k);
    }
  }

  lemma SubWord(language: Language, whole: string, base: nat, part: string, k: nat)
    requires language.Valid() && base + |part| <= |whole| && whole[base..base + |part|] == part
    ensures k + language.length <= |part| ==> language.WordAt(part, k) == language.WordAt(whole, base + k)
    ensures language.WordAt(part, k) ==> k + language.length <= |part|
  {
    if k + language.length <= |part| {
      SliceOfSlice(whole, base, base + |part|, k, k + language.length);
    }
  }

  /** Nothing of a language longer than `x` stands in `x` followed by the placeholder. */
  lemma TooShortForWord(language: Language, x: string, placeholder: string)
    requires language.Valid() && language.Avoids(placeholder) && |x| < language.length
    ensures Replace(language, placeholder, x + placeholder) == x + placeholder
  {
    AppendNil(x + placeholder);
    forall k: nat | k < |x + placeholder|
      ensures !language.WordAt(x + placeholder + "", k)
    {
      if |x| <= k {
        PlaceholderStartsNothing(language, x, placeholder, "", k);
      } else if language.StartsAt(x + placeholder + "", k) {
        StartBeforePlaceholder(language, x, placeholder, "", "", k);
      }
      if language.WordAt(x + placeholder + "", k) {
        WordStarts(language, x + placeholder + "", k);
      }
    }
    PrefixKept(language, placeholder, x + placeholder, "");
  }

  /** The whole answer replaces the earlier language's word. */
  lemma WholeAnswer(first: Language, second: Language, placeholder: string, text: string, q: nat, i: nat)
    requires first.Valid() && second.Valid() && second.Avoids(placeholder) && Undercut(first, second, text, q, i)
    ensures ReplaceBoth(first, second, placeholder, text) == text[..q] + placeholder
  {
    ReplaceIsSettle(first, placeholder, text);
    SettleAtWord(first, placeholder, text, false, 0, q);
    AppendNil(text[..q] + placeholder);
    TooShortForWord(second, text[..q], placeholder);
  }

  /** With the tail protected, the later language's word is replaced instead. */
  lemma ProtectedAnswer(first: Language, second: Language, placeholder: string, text: string, q: nat, i: nat)
    requires first.Valid() && second.Valid() && Undercut(first, second, text, q, i)
    ensures Settle(second, placeholder, Settle(first, placeholder, text, true, 0), true, 0)
         == text[..i] + placeholder + Settle(second, placeholder, text, true, i + second.length)
  {
    forall k: nat | first.WordAt(text, k)
      ensures k + first.length == |text|
    {
      assert k >= q;
    }
    SettleNoWord(first, placeholder, text, true, 0);
    assert text[0..] == text;
    SettleAtWord(second, placeholder, text, true, 0, i);
  }

  lemma {:induction false} SettleKeepsLength(language: Language, placeholder: string, text: string, protectTail: bool, from: nat)
    requires language.Valid() && placeholder != "" && from <= |text|
    ensures from < |text| ==> |Settle(language, placeholder, text, protectTail, from)| > 0
  {
  }

  /** Nothing can start before the placeholder that stands for the later word. */
  lemma NoStartBeforeUndercut(first: Language, second: Language, language: Language, placeholder: string, text: string,
                              q: nat, i: nat, rest: string, k: nat)
    requires first.Valid() && second.Valid() && Undercut(first, second, text, q, i)
    requires language.Valid() && language.Avoids(placeholder) && k < i + |placeholder|
    requires forall p: nat | p + language.length <= i :: !language.WordAt(text, p)
    ensures !language.StartsAt(text[..i] + placeholder + rest, k)
  {
    var x := text[..i];
    if i <= k {
      PlaceholderStartsNothing(language, x, placeholder, rest, k);
    } else if language.StartsAt(x + placeholder + rest, k) {
      StartBeforePlaceholder(language, x, placeholder, rest, "", k);
      SubWord(language, text, 0, x, k);
    }
  }

  lemma NoWordsBefore(first: Language, second: Language, text: string, q: nat, i: nat)
    requires first.Valid() && second.Valid() && Undercut(first, second, text, q, i)
    ensures forall p: nat :: p + first.length <= i ==> !first.WordAt(text, p)
    ensures forall p: nat :: p + second.length <= i ==> !second.WordAt(text, p)
  {
    forall p: nat
      ensures first.WordAt(text, p) ==> i < p + first.length
    {
      assert first.WordAt(text, p) ==> q <= p;
    }
    forall p: nat
      ensures second.WordAt(text, p) ==> i < p + second.length
    {
      assert second.WordAt(text, p) ==> i <= p;
    }
  }

  lemma SplitsAfterUndercut(cfg: Config, first: Language, second: Language, text: string, q: nat, i: nat, rest: string)
    requires Pair(cfg, first, second) && Undercut(first, second, text, q, i)
    ensures HoldbackIndex(cfg.patterns, text[..i] + cfg.placeholder + rest) >= i + |cfg.placeholder|
  {
    var shown := text[..i] + cfg.placeholder + rest;
    var split := HoldbackIndex(cfg.patterns, shown);
    if split < i + |cfg.placeholder| {
      PairHolds(cfg, first, second, shown);
      NoWordsBefore(first, second, text, q, i);
      NoStartBeforeUndercut(first, second, first, cfg.placeholder, text, q, i, rest, split);
      NoStartBeforeUndercut(first, second, second, cfg.placeholder, text, q, i, rest, split);
    }
  }

  lemma ReplaceBothKeeps(first: Language, second: Language, placeholder: string, text: string)
    requires first.Valid() && second.Valid() && placeholder != "" && text != ""
    ensures ReplaceBoth(first, second, placeholder, text) != ""
  {
    ReplaceIsSettle(first, placeholder, text);
    SettleKeepsLength(first, placeholder, text, false, 0);
    var once := Replace(first, placeholder, text);
    ReplaceIsSettle(second, placeholder, once);
    SettleKeepsLength(second, placeholder, once, false, 0);
  }

  lemma WordHasNoPlaceholder(language: Language, placeholder: string, text: string, k: nat)
    requires language.Valid() && language.Avoids(placeholder) && language.WordAt(text, k)
    ensures text[k] != placeholder[0]
  {
    var word := text[k..k + language.length];
    assert word[0] == text[k];
  }

  /** Two cuts of such a text, followed by a foreign character, give different output. */
  lemma UndercutShows(cfg: Config, first: Language, second: Language, text: string, q: nat, i: nat, c: char)
    requires Pair(cfg, first, second) && Undercut(first, second, text, q, i)
    requires Foreign(first, c) && Foreign(second, c)
    ensures Concat([text, [c]]) == Concat([text + [c]])
    ensures Process(cfg, INITIAL, [text, [c]]) != Process(cfg, INITIAL, [text + [c]])
  {
    var rest := Settle(second, cfg.placeholder, text, true, i + second.length);
    var shown := text[..i] + cfg.placeholder + rest;
    var split := HoldbackIndex(cfg.patterns, shown);
    var tail := ReplaceBoth(first, second, cfg.placeholder, shown[split..]);
    TwoConcat(text, [c]);
    ReadWhole(cfg, first, second, text, c);
    WholeAnswer(first, second, cfg.placeholder, text, q, i);
    ReadInTwo(cfg, first, second, text, c);
    ProtectedAnswer(first, second, cfg.placeholder, text, q, i);
    SplitsAfterUndercut(cfg, first, second, text, q, i, rest);
    SettleKeepsLength(second, cfg.placeholder, text, true, i + second.length);
    if shown[split..] != "" {
      ReplaceBothKeeps(first, second, cfg.placeholder, shown[split..]);
    }
    if q == 0 {
      WordHasNoPlaceholder(first, cfg.placeholder, text, 0);
    } else {
      WordHasNoPlaceholder(second, cfg.placeholder, text, 0);
    }
    AnswersDiffer(text, cfg.placeholder, q, i, rest, split, tail, c);
  }

  lemma TwoConcat(x: string, y: string)
    ensures Concat([x, y]) == Concat([x + y])
  {
    ConcatSingle(y);
    ConcatSingle(x + y);
    assert [x, y][1..] == [y];
  }

  /** They differ in the first character, or in length. */
  lemma AnswersDiffer(text: string, placeholder: string, q: nat, i: nat, rest: string, split: nat, tail: string, c: char)
    requires placeholder != "" && rest != "" && q < |text| && i < |text| && (q == 0 || i == 0)
    requires text[0] != placeholder[0]
    requires var shown := text[..i] + placeholder + rest;
             i + |placeholder| <= split <= |shown| && (split < |shown| ==> tail != "")
    ensures var shown := text[..i] + placeholder + rest;
            shown[..split] + (tail + [c]) != text[..q] + placeholder + [c]
  {
    var shown := text[..i] + placeholder + rest;
    var two, whole := shown[..split] + (tail + [c]), text[..q] + placeholder + [c];
    if i == 0 && q == 0 {
      assert |two| > |whole|;
    } else {
      assert two[0] == shown[0] && (if i == 0 then shown[0] == placeholder[0] else shown[0] == text[0]);
      assert if q == 0 then whole[0] == placeholder[0] else whole[0] == text[0];
    }
  }

  // ---- Exactly when -----------------------------------------------------------------------------

  /** All cuts of every text give the same output. */
  ghost predicate CutsNeverMatter(cfg: Config)
    requires cfg.WellFormed()
  {
    forall a, b :: Concat(a) == Concat(b) ==> SameOutput(cfg, a, b)
  }

  ghost predicate SameOutput(cfg: Config, a: seq<string>, b: seq<string>)
    requires cfg.WellFormed()
  {
    Process(cfg, INITIAL, a) == Process(cfg, INITIAL, b)
  }

  /** Main result: two fixed-length detectors ignore where chunks fall exactly when no word of the later one,
      free of words of the earlier one, overlaps one of these and ends before it. */
  lemma CutsNeverMatterExactlyWhen(cfg: Config, first: Language, second: Language)
    requires Pair(cfg, first, second) && Tight(first)
    ensures CutsNeverMatter(cfg) <==> Compatible(first, second)
  {
    if Compatible(first, second) {
      CompatibleCuts(cfg, first, second);
    } else {
      IncompatibleCuts(cfg, first, second);
    }
  }

  lemma IncompatibleCuts(cfg: Config, first: Language, second: Language)
    requires Pair(cfg, first, second) && Tight(first) && !Compatible(first, second)
    ensures !CutsNeverMatter(cfg)
  {
    var whole, i, j := SomeCut(first, second);
    var text, q, p := FindUndercut(first, second, whole, i, j);
    UndercutShows(cfg, first, second, text, q, p, cfg.placeholder[0]);
    assert !SameOutput(cfg, [text, [cfg.placeholder[0]]], [text + [cfg.placeholder[0]]]);
  }

  lemma SomeCut(first: Language, second: Language) returns (text: string, i: nat, j: nat)
    requires !Compatible(first, second)
    ensures CutsInto(first, second, text, i, j)
  {
    text, i, j :| CutsInto(first, second, text, i, j);
  }

  lemma CompatibleCuts(cfg: Config, first: Language, second: Language)
    requires Pair(cfg, first, second) && Tight(first) && Compatible(first, second)
    ensures CutsNeverMatter(cfg)
  {
    TwoCompatible(first, second);
    PairIsListed(cfg, first, second);
    forall a, b | Concat(a) == Concat(b)
      ensures SameOutput(cfg, a, b)
    {
      StreamReplacesAll(cfg, [first, second], a);
      StreamReplacesAll(cfg, [first, second], b);
    }
  }

  // ---- Inputs that show it ----------------------------------------------------------------------

  /** The language with one word. */
  function OneWord(word: string): Language {
    Language(|word|, (s: string) => s <= word)
  }

  lemma OneWordIsValid(word: string)
    requires word != ""
    ensures OneWord(word).Valid()
  {
  }

  /** Detectors of `ab` and then `a`: read whole, `abc` loses `ab`; read as `ab` then `c`, it loses only `a`. */
  lemma CutsCanMatter(cfg: Config)
    requires Pair(cfg, OneWord("ab"), OneWord("a"))
    ensures !Compatible(OneWord("ab"), OneWord("a"))
    ensures Concat(["ab", "c"]) == Concat(["abc"])
    ensures Process(cfg, INITIAL, ["ab", "c"]) != Process(cfg, INITIAL, ["abc"])
  {
    assert "ab"[0..2] == "ab" && "ab"[0..1] == "a";
    assert CutsInto(OneWord("ab"), OneWord("a"), "ab", 0, 0);
    UndercutShows(cfg, OneWord("ab"), OneWord("a"), "ab", 0, 0, 'c');
    assert "ab" + ['c'] == "abc" && ['c'] == "c";
  }

  lemma AddressUndercut(digit: char -> bool, address: string)
    requires |address| > Ssn.SSN_LENGTH && Ssn.IsSsn(digit, address[..Ssn.SSN_LENGTH])
    ensures Undercut(OneWord(address), Ssn.Language(digit), address, 0, 0)
    ensures CutsInto(OneWord(address), Ssn.Language(digit), address, 0, 0)
  {
    assert address[0..|address|] == address && address[0..Ssn.SSN_LENGTH] == address[..Ssn.SSN_LENGTH];
    Ssn.PrefixIsViable(digit, address[..Ssn.SSN_LENGTH], address[..Ssn.SSN_LENGTH]);
  }

  lemma SpaceIsForeign(digit: char -> bool)
    requires !digit(' ')
    ensures Foreign(Ssn.Language(digit), ' ')
  {
  }

  /** A detector of an address that begins with a social security number, and then the number's own: read whole,
      the address becomes one placeholder; cut after the address, the number alone is replaced first. */
  lemma NumberInAnAddress(cfg: Config, digit: char -> bool, address: string)
    requires |address| > Ssn.SSN_LENGTH && Ssn.IsSsn(digit, address[..Ssn.SSN_LENGTH]) && ' ' !in address && !digit(' ')
    requires Pair(cfg, OneWord(address), Ssn.Language(digit))
    ensures !Compatible(OneWord(address), Ssn.Language(digit))
    ensures Concat([address, " "]) == Concat([address + " "])
    ensures Process(cfg, INITIAL, [address, " "]) != Process(cfg, INITIAL, [address + " "])
  {
    AddressUndercut(digit, address);
    SpaceIsForeign(digit);
    UndercutShows(cfg, OneWord(address), Ssn.Language(digit), address, 0, 0, ' ');
    assert [' '] == " ";
  }

  lemma SuchAnAddress(digit: char -> bool)
    requires Ssn.DigitClass(digit)
    ensures Ssn.IsSsn(digit, "123-45-6789bob@example.com"[..Ssn.SSN_LENGTH])
  {
    var number := "123-45-6789";
    assert "123-45-6789bob@example.com"[..11] == number;
    assert number[..3] == "123" && number[4..6] == "45" && number[7..11] == "6789";
  }

  /** Such configurations exist. */
  lemma PairExists(first: Language, second: Language, placeholder: string, n: int, runCharacter: char -> bool)
    requires first.Valid() && second.Valid() && first.Avoids(placeholder) && second.Avoids(placeholder)
    requires first.length <= n && second.length <= n
    ensures Pair(Config([LanguagePattern("", first), LanguagePattern("", second)], placeholder, n, runCharacter), first, second)
  {
  }
}

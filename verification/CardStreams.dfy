/** The card detector on a stream: a card written without separators, among words without digits, is redacted the
    same way for every cut exactly if every beginning of it that passes the check only grows into ones that do. */
module CardStreams {
  import opened Basics
  import opened Detectors
  import opened Pieces
  import opened Redaction
  import opened Luhn
  import opened CardSearch
  import opened CardPass
  import opened Suppression

  /** Up to nineteen digits. */
  predicate FewDigits(num: Numerals, s: string) {
    |s| <= 19 && forall i | 0 <= i < |s| :: num.digit(s[i])
  }

  /** The scan holds back exactly the digits at the end of a text without other digits. */
  ghost predicate HoldsDigits(p: Pattern, num: Numerals) {
    forall words: string, digits: string {:trigger HeldFrom(p, words, digits)} |
      NoDigits(num, words) && FewDigits(num, digits) :: HeldFrom(p, words, digits)
  }

  ghost predicate HeldFrom(p: Pattern, words: string, digits: string) {
    EarliestUnsafe(p.scan(words + digits), |words + digits|) == |words|
  }

  /** A redactor with the card detector alone and room for a card; no digit stands in the placeholder. */
  ghost predicate CardsOnly(cfg: Config, num: Numerals) {
    && cfg.WellFormed() && |cfg.patterns| == 1 && IsCardDetector(cfg.patterns[0], num) && HoldsDigits(cfg.patterns[0], num)
    && 19 <= cfg.maxHoldback && NoDigits(num, cfg.placeholder)
  }

  predicate Passing(num: Numerals, digits: string)
    requires num.Valid()
  {
    Valid(Digits(num, digits))
  }

  /** A beginning that passes the check goes on passing it. */
  ghost predicate Steady(num: Numerals, digits: string)
    requires num.Valid()
  {
    forall e, k | 0 <= e <= k <= |digits| :: Passing(num, digits[..e]) ==> Passing(num, digits[..k])
  }

  /** No shorter beginning passes the check, or the whole does. */
  ghost predicate Quiet(num: Numerals, digits: string)
    requires num.Valid()
  {
    forall e | 0 <= e <= |digits| :: Passing(num, digits[..e]) ==> Passing(num, digits)
  }

  lemma SteadyIsQuiet(num: Numerals, digits: string, k: nat)
    requires num.Valid() && Steady(num, digits) && k <= |digits|
    ensures Quiet(num, digits[..k])
  {
    forall e | 0 <= e <= k
      ensures Passing(num, digits[..k][..e]) ==> Passing(num, digits[..k])
    {
      assert digits[..k][..e] == digits[..e];
    }
  }

  // ---- One pass -------------------------------------------------------------------------------

  /** Digits, with no separator among them. */
  lemma DigitsCount(num: Numerals, digits: string)
    requires num.Valid() && forall i | 0 <= i < |digits| :: num.digit(digits[i])
    ensures |Digits(num, digits)| == |digits|
  {
    if digits != "" {
      DigitsAt(num, digits, 0);
    }
  }

  lemma DigitsGrouped(num: Numerals, digits: string)
    requires num.Valid() && FewDigits(num, digits) && 13 <= |digits|
    ensures CardShaped(num, digits)
  {
    DigitsCount(num, digits);
  }

  /** A match at the digits that end a text is all of them. */
  lemma EndingMatch(num: Numerals, words: string, digits: string)
    requires num.Valid() && FewDigits(num, digits) && digits != "" && NoDigits(num, words)
    ensures var text := words + digits;
            GreedyMatch(num, text, |words|, |text|) == if |digits| >= 13 then Some(|text|) else None
  {
    var text, start := words + digits, |words|;
    assert text[start..] == digits && text[start..|text|] == digits;
    assert start > 0 ==> text[start - 1] == words[start - 1];
    if |digits| >= 13 {
      DigitsGrouped(num, digits);
      assert MatchEnd(num, text, start, |text|, |text|);
    } else {
      forall e: nat | start <= e <= |text|
        ensures !MatchEnd(num, text, start, |text|, e)
      {
        assert text[start..e] == digits[..e - start];
        DigitsCount(num, digits[..e - start]);
      }
    }
  }

  /** The last card at these digits. */
  lemma EndingCard(num: Numerals, words: string, digits: string, last: Option<nat>)
    requires num.Valid() && FewDigits(num, digits) && 13 <= |digits|
    requires LastCardEnd(num, words + digits, |words|, |words + digits|, last)
    ensures Passing(num, digits) ==> last == Some(|words + digits|)
    ensures last.Some? ==> |words| <= last.value <= |words + digits| && Passing(num, digits[..last.value - |words|])
  {
    var text, start := words + digits, |words|;
    assert text[start..|text|] == digits;
    DigitsGrouped(num, digits);
    assert Passing(num, digits) ==> CardEndsAt(num, text, start, |text|);
    if last.Some? {
      assert text[start..last.value] == digits[..last.value - start];
    }
  }

  lemma NothingAtEnd(num: Numerals, words: string, digits: string)
    requires num.Valid() && FewDigits(num, digits) && digits != "" && NoDigits(num, words) && Quiet(num, digits)
    ensures CardTo(num, words + digits, true, |words|).None?
  {
    var text, start := words + digits, |words|;
    EndingMatch(num, words, digits);
    if |digits| >= 13 {
      MatchedCard(num, text, true, start, |text|);
      LastCardIsLast(num, text, start, |text|);
      EndingCard(num, words, digits, LastCard(num, text, start, |text|));
    } else {
      UnmatchedIsClear(num, text, true, start);
    }
  }

  /** No match starts at a character that is no digit, or right behind one that is. */
  lemma NothingElsewhere(num: Numerals, words: string, digits: string, protectTail: bool, i: nat)
    requires num.Valid() && NoDigits(num, words) && (forall k | 0 <= k < |digits| :: num.digit(digits[k]))
    requires i < |words + digits| && i != |words|
    ensures CardTo(num, words + digits, protectTail, i).None?
  {
    var text := words + digits;
    if i < |words| {
      assert text[i] == words[i];
      NoDigitNoMatch(num, text, i, |text|);
    } else {
      assert text[i - 1] == digits[i - 1 - |words|];
    }
    UnmatchedIsClear(num, text, protectTail, i);
  }

  /** Words and quiet digits at the end are left as they are. */
  lemma QuietIsKept(p: Pattern, num: Numerals, placeholder: string, words: string, digits: string)
    requires IsCardDetector(p, num) && NoDigits(num, words) && FewDigits(num, digits) && Quiet(num, digits)
    ensures Shown(Pass(p, words + digits, true), placeholder) == words + digits
  {
    var text := words + digits;
    var ends := Ends(num, text, true);
    forall i | 0 <= i < |text|
      ensures ends[i].None?
    {
      if i == |words| {
        NothingAtEnd(num, words, digits);
      } else {
        NothingElsewhere(num, words, digits, true, i);
      }
    }
    MaskToEnd(ends, placeholder, text, 0);
    PassMasksCards(p, num, placeholder, text, true);
    assert text[0..] == text;
  }

  // ---- One chunk ------------------------------------------------------------------------------

  lemma OneDetector(cfg: Config, num: Numerals, text: string, protectTail: bool)
    requires CardsOnly(cfg, num)
    ensures Passes(cfg.patterns, cfg.placeholder, text, protectTail)
         == Shown(Pass(cfg.patterns[0], text, protectTail), cfg.placeholder)
  {
    assert |cfg.patterns[1..]| == 0;
  }

  lemma OneHoldback(cfg: Config, num: Numerals, words: string, digits: string)
    requires CardsOnly(cfg, num) && NoDigits(num, words) && FewDigits(num, digits)
    ensures HoldbackIndex(cfg.patterns, words + digits) == |words|
  {
    assert HeldFrom(cfg.patterns[0], words, digits);
    assert |cfg.patterns[..0]| == 0;
    assert HoldbackIndex(cfg.patterns[..0], words + digits) == |words + digits|;
  }

  /** A chunk after which the buffer, with it, has become `words` and `digits`: the words go out, the digits stay. */
  lemma DigitsWait(cfg: Config, num: Numerals, st: State, text: string, words: string, digits: string)
    requires CardsOnly(cfg, num) && !st.suppressing && text != "" && NoDigits(num, words) && FewDigits(num, digits)
    requires Passes(cfg.patterns, cfg.placeholder, st.buffer + text, true) == words + digits
    ensures var (after, shown) := Feed(cfg, st, text);
            shown == words && after.buffer == digits && !after.suppressing
  {
    OneHoldback(cfg, num, words, digits);
    assert (words + digits)[..|words|] == words && (words + digits)[|words|..] == digits;
  }

  lemma QuietWaits(cfg: Config, num: Numerals, st: State, text: string, words: string, digits: string)
    requires CardsOnly(cfg, num) && !st.suppressing && text != "" && NoDigits(num, words) && FewDigits(num, digits)
    requires st.buffer + text == words + digits && Quiet(num, digits)
    ensures var (after, shown) := Feed(cfg, st, text);
            shown == words && after.buffer == digits && !after.suppressing
  {
    QuietIsKept(cfg.patterns[0], num, cfg.placeholder, words, digits);
    OneDetector(cfg, num, words + digits, true);
    DigitsWait(cfg, num, st, text, words, digits);
  }

  lemma WordsJoin(num: Numerals, a: string, b: string)
    requires NoDigits(num, a) && NoDigits(num, b)
    ensures NoDigits(num, a + b)
  {
  }

  lemma NothingIsQuiet(num: Numerals)
    requires num.Valid()
    ensures NoDigits(num, "") && FewDigits(num, "") && Quiet(num, "")
  {
  }

  /** A card made of digits alone. */
  predicate PlainCard(num: Numerals, card: string)
    requires num.Valid()
  {
    FewDigits(num, card) && Passing(num, card)
  }

  lemma PlainIsCard(num: Numerals, card: string)
    requires num.Valid() && PlainCard(num, card)
    ensures IsCard(num, card) && 13 <= |card|
  {
    DigitsCount(num, card);
    DigitsGrouped(num, card);
  }

  /** The card between words, in one text. */
  lemma PlainIsHidden(p: Pattern, num: Numerals, placeholder: string, x: string, card: string, y: string, protectTail: bool)
    requires IsCardDetector(p, num) && NoDigits(num, x) && PlainCard(num, card) && NoDigits(num, y)
    requires protectTail ==> y != ""
    ensures Shown(Pass(p, x + card + y, protectTail), placeholder) == x + placeholder + y
  {
    PlainIsCard(num, card);
    CardAfterWords(p, num, placeholder, x, card, y, protectTail);
    WordsAreKept(p, num, placeholder, y, protectTail);
  }

  lemma CardGoesOut(cfg: Config, num: Numerals, st: State, text: string, x: string, card: string, y: string)
    requires CardsOnly(cfg, num) && !st.suppressing && text != "" && st.buffer + text == x + card + y
    requires NoDigits(num, x) && PlainCard(num, card) && NoDigits(num, y) && y != ""
    ensures var (after, shown) := Feed(cfg, st, text);
            shown == x + cfg.placeholder + y && after.buffer == "" && !after.suppressing
  {
    var words := x + cfg.placeholder + y;
    PlainIsHidden(cfg.patterns[0], num, cfg.placeholder, x, card, y, true);
    OneDetector(cfg, num, x + card + y, true);
    WordsJoin(num, x, cfg.placeholder);
    WordsJoin(num, x + cfg.placeholder, y);
    NothingIsQuiet(num);
    AppendNil(words);
    DigitsWait(cfg, num, st, text, words, "");
  }

  // ---- Any cut --------------------------------------------------------------------------------

  /** Where a stream of `x + card + y` is: among the words before the card, in the card, or behind it, and how much
      of that part has gone in. */
  datatype Place = Before(got: string) | Within(got: string) | Behind(got: string)

  function GoneIn(x: string, card: string, place: Place): string {
    match place
    case Before(got) => got
    case Within(got) => x + got
    case Behind(got) => x + card + got
  }

  predicate Fitting(x: string, card: string, y: string, place: Place) {
    match place
    case Before(got) => got <= x
    case Within(got) => got != "" && got <= card
    case Behind(got) => got != "" && got <= y
  }

  /** What has come out and what is held there. */
  ghost predicate At(cfg: Config, x: string, place: Place, st: State, shown: string) {
    && !st.suppressing
    && match place
       case Before(got) => st.buffer == "" && shown == got
       case Within(got) => st.buffer == got && shown == x
       case Behind(got) => st.buffer == "" && shown == x + cfg.placeholder + got
  }

  lemma PrefixIsQuiet(num: Numerals, card: string, got: string)
    requires num.Valid() && FewDigits(num, card) && Steady(num, card) && got <= card
    ensures FewDigits(num, got) && Quiet(num, got)
  {
    assert card[..|got|] == got;
    SteadyIsQuiet(num, card, |got|);
  }

  lemma PrefixOfWords(num: Numerals, x: string, got: string)
    requires NoDigits(num, x) && got <= x
    ensures NoDigits(num, got)
  {
  }

  lemma SuffixOfWords(num: Numerals, x: string, got: string, rest: string)
    requires NoDigits(num, x) && got + rest == x
    ensures NoDigits(num, rest)
  {
    assert forall i | 0 <= i < |rest| :: rest[i] == x[|got| + i];
  }

  lemma WordsGoOut(cfg: Config, num: Numerals, st: State, text: string)
    requires CardsOnly(cfg, num) && !st.suppressing && st.buffer == "" && text != "" && NoDigits(num, text)
    ensures var (after, shown) := Feed(cfg, st, text);
            shown == text && after.buffer == "" && !after.suppressing
  {
    NothingIsQuiet(num);
    AppendNil(text);
    QuietWaits(cfg, num, st, text, text, "");
  }

  /** From the words into the card. */
  lemma CardBegins(cfg: Config, num: Numerals, x: string, card: string, got: string, rest: string, front: string,
                   st: State, after: State, more: string)
    requires CardsOnly(cfg, num) && NoDigits(num, x) && FewDigits(num, card) && Steady(num, card)
    requires At(cfg, x, Before(got), st, got) && got + rest == x && front != "" && front <= card
    requires Feed(cfg, st, rest + front) == (after, more)
    ensures At(cfg, x, Within(front), after, got + more)
  {
    SuffixOfWords(num, x, got, rest);
    PrefixIsQuiet(num, card, front);
    AppendNil(rest + front);
    QuietWaits(cfg, num, st, rest + front, rest, front);
  }

  lemma CardGrows(cfg: Config, num: Numerals, x: string, card: string, got: string, text: string,
                  st: State, after: State, more: string)
    requires CardsOnly(cfg, num) && FewDigits(num, card) && Steady(num, card)
    requires At(cfg, x, Within(got), st, x) && text != "" && got + text <= card
    requires Feed(cfg, st, text) == (after, more)
    ensures At(cfg, x, Within(got + text), after, x + more)
  {
    NothingIsQuiet(num);
    PrefixIsQuiet(num, card, got + text);
    AppendNil(got + text);
    AppendNil(x);
    QuietWaits(cfg, num, st, text, "", got + text);
  }

  /** From the words past the card. */
  lemma CardPasses(cfg: Config, num: Numerals, x: string, card: string, y: string, got: string, rest: string, tail: string,
                   st: State, after: State, more: string)
    requires CardsOnly(cfg, num) && NoDigits(num, x) && PlainCard(num, card) && NoDigits(num, y)
    requires At(cfg, x, Before(got), st, got) && got + rest == x && tail != "" && tail <= y
    requires Feed(cfg, st, rest + card + tail) == (after, more)
    ensures At(cfg, x, Behind(tail), after, got + more)
  {
    var text := rest + card + tail;
    SuffixOfWords(num, x, got, rest);
    PrefixOfWords(num, y, tail);
    AppendNil(text);
    CardGoesOut(cfg, num, st, text, rest, card, tail);
    Associative(got, rest + cfg.placeholder, tail);
    Associative(got, rest, cfg.placeholder);
  }

  lemma CardEnds(cfg: Config, num: Numerals, x: string, card: string, y: string, got: string, back: string, tail: string,
                 st: State, after: State, more: string)
    requires CardsOnly(cfg, num) && PlainCard(num, card) && NoDigits(num, y)
    requires At(cfg, x, Within(got), st, x) && got + back == card && tail != "" && tail <= y
    requires Feed(cfg, st, back + tail) == (after, more)
    ensures At(cfg, x, Behind(tail), after, x + more)
  {
    PrefixOfWords(num, y, tail);
    NothingIsQuiet(num);
    Associative(got, back, tail);
    AppendNil(card);
    AppendNil(cfg.placeholder);
    CardGoesOut(cfg, num, st, back + tail, "", card, tail);
    Associative(x, cfg.placeholder, tail);
  }

  lemma RestGrows(cfg: Config, num: Numerals, x: string, y: string, got: string, text: string, st: State, shown: string,
                  after: State, more: string)
    requires CardsOnly(cfg, num) && NoDigits(num, y)
    requires At(cfg, x, Behind(got), st, shown) && text != "" && got + text <= y
    requires Feed(cfg, st, text) == (after, more)
    ensures At(cfg, x, Behind(got + text), after, shown + more)
  {
    PrefixOfWords(num, y, got + text);
    SuffixOfWords(num, got + text, got, text);
    WordsGoOut(cfg, num, st, text);
    Associative(x + cfg.placeholder, got, text);
  }

  lemma WordsGrow(cfg: Config, num: Numerals, x: string, got: string, text: string, st: State, after: State, more: string)
    requires CardsOnly(cfg, num) && NoDigits(num, x)
    requires At(cfg, x, Before(got), st, got) && text != "" && got + text <= x
    requires Feed(cfg, st, text) == (after, more)
    ensures At(cfg, x, Before(got + text), after, got + more)
  {
    PrefixOfWords(num, x, got + text);
    SuffixOfWords(num, got + text, got, text);
    WordsGoOut(cfg, num, st, text);
  }

  // ---- Where a piece ends ---------------------------------------------------------------------

  lemma PrefixSplitsAt(a: string, b: string, c: string)
    requires a <= b + c
    ensures |a| <= |b| ==> a <= b
    ensures |a| >= |b| ==> b <= a && a[..|b|] == b && a == b + a[|b|..] && a[|b|..] <= c
  {
    assert a == (b + c)[..|a|];
    if |a| >= |b| {
      assert a[|b|..] == c[..|a| - |b|];
    }
  }

  /** Where the stream is after a text that has gone in. */
  lemma PlaceOf(x: string, card: string, y: string, gone: string) returns (place: Place)
    requires gone <= x + card + y
    ensures Fitting(x, card, y, place) && GoneIn(x, card, place) == gone
  {
    Associative(x, card, y);
    PrefixSplitsAt(gone, x, card + y);
    if |gone| <= |x| {
      place := Before(gone);
    } else {
      var rest := gone[|x|..];
      PrefixSplitsAt(rest, card, y);
      if |rest| <= |card| {
        place := Within(rest);
      } else {
        place := Behind(rest[|card|..]);
        Associative(x, card, rest[|card|..]);
      }
    }
  }

  lemma Cancels(a: string, b: string, c: string)
    requires a + b == a + c
    ensures b == c
  {
    assert (a + b)[|a|..] == b && (a + c)[|a|..] == c;
  }

  /** The piece that leads from the words to a later place. */
  lemma PieceFromBefore(x: string, got: string, text: string, later: string) returns (rest: string)
    requires got <= x && got + text == x + later
    ensures got + rest == x && text == rest + later
  {
    rest := x[|got|..];
    assert x == got + rest;
    Associative(got, rest, later);
    Cancels(got, text, rest + later);
  }

  // ---- The stream -----------------------------------------------------------------------------

  lemma MovesFromBefore(cfg: Config, num: Numerals, x: string, card: string, y: string, got: string, next: Place, text: string,
                        st: State, after: State, more: string)
    requires CardsOnly(cfg, num) && NoDigits(num, x) && PlainCard(num, card) && Steady(num, card) && NoDigits(num, y)
    requires got <= x && At(cfg, x, Before(got), st, got) && Fitting(x, card, y, next)
    requires text != "" && GoneIn(x, card, next) == got + text && Feed(cfg, st, text) == (after, more)
    ensures At(cfg, x, next, after, got + more)
  {
    match next
    case Before(all) =>
      WordsGrow(cfg, num, x, got, text, st, after, more);
    case Within(front) =>
      var rest := PieceFromBefore(x, got, text, front);
      CardBegins(cfg, num, x, card, got, rest, front, st, after, more);
    case Behind(tail) =>
      Associative(x, card, tail);
      var rest := PieceFromBefore(x, got, text, card + tail);
      Associative(rest, card, tail);
      CardPasses(cfg, num, x, card, y, got, rest, tail, st, after, more);
  }

  lemma MovesFromWithin(cfg: Config, num: Numerals, x: string, card: string, y: string, got: string, next: Place, text: string,
                        st: State, after: State, more: string)
    requires CardsOnly(cfg, num) && PlainCard(num, card) && Steady(num, card) && NoDigits(num, y)
    requires got != "" && got <= card && At(cfg, x, Within(got), st, x) && Fitting(x, card, y, next)
    requires text != "" && GoneIn(x, card, next) == x + got + text && Feed(cfg, st, text) == (after, more)
    ensures At(cfg, x, next, after, x + more)
  {
    Associative(x, got, text);
    match next
    case Before(_) =>  // too short
    case Within(front) =>
      Cancels(x, got + text, front);
      CardGrows(cfg, num, x, card, got, text, st, after, more);
    case Behind(tail) =>
      Associative(x, card, tail);
      Cancels(x, got + text, card + tail);
      var back := PieceFromBefore(card, got, text, tail);
      CardEnds(cfg, num, x, card, y, got, back, tail, st, after, more);
  }

  lemma MovesFromBehind(cfg: Config, num: Numerals, x: string, card: string, y: string, got: string, next: Place, text: string,
                        st: State, shown: string, after: State, more: string)
    requires CardsOnly(cfg, num) && NoDigits(num, y)
    requires got != "" && At(cfg, x, Behind(got), st, shown) && Fitting(x, card, y, next)
    requires text != "" && GoneIn(x, card, next) == x + card + got + text && Feed(cfg, st, text) == (after, more)
    ensures At(cfg, x, next, after, shown + more)
  {
    match next
    case Behind(all) =>
      Associative(x + card, got, text);
      Cancels(x + card, got + text, all);
      RestGrows(cfg, num, x, y, got, text, st, shown, after, more);
    case _ =>  // too short
  }

  lemma Moves(cfg: Config, num: Numerals, x: string, card: string, y: string, place: Place, next: Place, text: string,
              st: State, shown: string, after: State, more: string)
    requires CardsOnly(cfg, num) && NoDigits(num, x) && PlainCard(num, card) && Steady(num, card) && NoDigits(num, y)
    requires Fitting(x, card, y, place) && At(cfg, x, place, st, shown) && Fitting(x, card, y, next)
    requires text != "" && GoneIn(x, card, next) == GoneIn(x, card, place) + text && Feed(cfg, st, text) == (after, more)
    ensures At(cfg, x, next, after, shown + more)
  {
    match place
    case Before(got) => MovesFromBefore(cfg, num, x, card, y, got, next, text, st, after, more);
    case Within(got) => MovesFromWithin(cfg, num, x, card, y, got, next, text, st, after, more);
    case Behind(got) => MovesFromBehind(cfg, num, x, card, y, got, next, text, st, shown, after, more);
  }

  lemma LastFed(cfg: Config, chunks: seq<string>)
    requires cfg.WellFormed() && |chunks| > 0
    ensures var (st, shown) := FeedAll(cfg, INITIAL, chunks[..|chunks| - 1]);
            var (after, more) := Feed(cfg, st, chunks[|chunks| - 1]);
            FeedAll(cfg, INITIAL, chunks) == (after, shown + more)
  {
  }

  lemma {:induction false} StreamIsAt(cfg: Config, num: Numerals, x: string, card: string, y: string, chunks: seq<string>)
      returns (place: Place)
    requires CardsOnly(cfg, num) && NoDigits(num, x) && PlainCard(num, card) && Steady(num, card) && NoDigits(num, y)
    requires Concat(chunks) <= x + card + y
    ensures Fitting(x, card, y, place) && GoneIn(x, card, place) == Concat(chunks)
    ensures At(cfg, x, place, FeedAll(cfg, INITIAL, chunks).0, FeedAll(cfg, INITIAL, chunks).1)
    decreases |chunks|
  {
    if |chunks| == 0 {
      place := Before("");
    } else {
      var k := |chunks| - 1;
      var text := chunks[k];
      ConcatLast(chunks);
      var (st, shown) := FeedAll(cfg, INITIAL, chunks[..k]);
      var (after, more) := Feed(cfg, st, text);
      LastFed(cfg, chunks);
      place := StreamIsAt(cfg, num, x, card, y, chunks[..k]);
      if text == "" {
        AppendNil(shown);
        AppendNil(Concat(chunks[..k]));
      } else {
        var next := PlaceOf(x, card, y, Concat(chunks));
        Moves(cfg, num, x, card, y, place, next, text, st, shown, after, more);
        place := next;
      }
    }
  }

  lemma CardAtEnd(cfg: Config, num: Numerals, card: string)
    requires CardsOnly(cfg, num) && PlainCard(num, card)
    ensures Passes(cfg.patterns, cfg.placeholder, card, false) == cfg.placeholder
  {
    NothingIsQuiet(num);
    PlainIsHidden(cfg.patterns[0], num, cfg.placeholder, "", card, "", false);
    OneDetector(cfg, num, card, false);
    AppendNil(card);
    AppendNil(cfg.placeholder);
  }

  lemma NothingAtTheEnd(cfg: Config, num: Numerals)
    requires CardsOnly(cfg, num)
    ensures Passes(cfg.patterns, cfg.placeholder, "", false) == ""
  {
    NothingIsQuiet(num);
    WordsAreKept(cfg.patterns[0], num, cfg.placeholder, "", false);
    OneDetector(cfg, num, "", false);
  }

  /** A steady card is redacted alike for every cut. */
  lemma SteadyCardIsHidden(cfg: Config, num: Numerals, x: string, card: string, y: string, chunks: seq<string>)
    requires CardsOnly(cfg, num) && NoDigits(num, x) && PlainCard(num, card) && Steady(num, card) && NoDigits(num, y)
    requires Concat(chunks) == x + card + y
    ensures Process(cfg, INITIAL, chunks) == x + cfg.placeholder + y
  {
    var place := StreamIsAt(cfg, num, x, card, y, chunks);
    PlainIsCard(num, card);
    var (st, shown) := FeedAll(cfg, INITIAL, chunks);
    match place
    case Before(_) =>  // too short
    case Within(got) =>
      Associative(x, card, y);
      Cancels(x, got, card + y);
      assert |got| <= |card|;
      assert y == "" && got == card;
      CardAtEnd(cfg, num, card);
      AppendNil(x + cfg.placeholder);
    case Behind(got) =>
      Cancels(x + card, got, y);
      NothingAtTheEnd(cfg, num);
      AppendNil(shown);
  }

  // ---- A card that is not steady --------------------------------------------------------------

  /** The pass over digits that do not pass, though a beginning of them does: it hides the longest that does. */
  lemma UnquietIsCut(p: Pattern, num: Numerals, placeholder: string, digits: string, e: nat) returns (last: nat)
    requires IsCardDetector(p, num) && FewDigits(num, digits) && e <= |digits|
    requires Passing(num, digits[..e]) && !Passing(num, digits)
    ensures e <= last < |digits| && 13 <= last
    ensures Shown(Pass(p, digits, true), placeholder) == placeholder + digits[last..]
  {
    var n := |digits|;
    DigitsCount(num, digits[..e]);
    AppendNil(digits);
    assert NoDigits(num, "");
    EndingMatch(num, "", digits);
    MatchedCard(num, digits, true, 0, n);
    LastCardIsLast(num, digits, 0, n);
    EndingCard(num, "", digits, LastCard(num, digits, 0, n));
    PassingEnds(num, digits, e);
    last := LastPassing(num, digits, e, LastCard(num, digits, 0, n));
    DigitsHideOnce(p, num, placeholder, digits, last);
  }

  lemma LastPassing(num: Numerals, digits: string, e: nat, found: Option<nat>) returns (last: nat)
    requires num.Valid() && FewDigits(num, digits) && e <= |digits| && !Passing(num, digits)
    requires LastCardEnd(num, digits, 0, |digits|, found) && CardEndsAt(num, digits, 0, e)
    requires found.Some? ==> found.value <= |digits| && Passing(num, digits[..found.value])
    ensures found == Some(last) && e <= last < |digits| && 13 <= last
  {
    last := found.value;
    DigitsCount(num, digits[..last]);
    assert digits[..|digits|] == digits;
  }

  lemma PassingEnds(num: Numerals, digits: string, e: nat)
    requires num.Valid() && FewDigits(num, digits) && e <= |digits| && Passing(num, digits[..e])
    ensures CardEndsAt(num, digits, 0, e)
  {
    DigitsCount(num, digits[..e]);
    DigitsGrouped(num, digits[..e]);
    assert digits[0..e] == digits[..e];
  }

  lemma DigitsHideOnce(p: Pattern, num: Numerals, placeholder: string, digits: string, last: nat)
    requires IsCardDetector(p, num) && FewDigits(num, digits) && 0 < last <= |digits|
    requires CardTo(num, digits, true, 0) == Some(last)
    ensures Shown(Pass(p, digits, true), placeholder) == placeholder + digits[last..]
  {
    var ends := Ends(num, digits, true);
    forall i | last <= i < |digits|
      ensures ends[i].None?
    {
      AppendNil(digits);
      NothingElsewhere(num, "", digits, true, i);
    }
    MaskHides(ends, placeholder, digits, 0, 0);
    MaskToEnd(ends, placeholder, digits, last);
    PassMasksCards(p, num, placeholder, digits, true);
    assert digits[0..0] + placeholder == placeholder;
  }

  /** Twelve digits or fewer are never hidden. */
  lemma ShortIsKept(p: Pattern, num: Numerals, placeholder: string, digits: string)
    requires IsCardDetector(p, num) && FewDigits(num, digits) && |digits| < 13
    ensures Quiet(num, digits) && Shown(Pass(p, digits, false), placeholder) == digits
  {
    forall e | 0 <= e <= |digits|
      ensures !Passing(num, digits[..e])
    {
      DigitsCount(num, digits[..e]);
    }
    var ends := Ends(num, digits, false);
    AppendNil(digits);
    assert NoDigits(num, "");
    forall i | 0 <= i < |digits|
      ensures ends[i].None?
    {
      if i == 0 {
        EndingMatch(num, "", digits);
        UnmatchedIsClear(num, digits, false, 0);
      } else {
        NothingElsewhere(num, "", digits, false, i);
      }
    }
    MaskToEnd(ends, placeholder, digits, 0);
    PassMasksCards(p, num, placeholder, digits, false);
    assert digits[0..] == digits;
  }

  /** Cut behind a beginning that does not pass, though a shorter one does, a card is redacted up to the shorter
      one, and the rest of its digits come out. */
  lemma UnsteadyCardLeaks(cfg: Config, num: Numerals, card: string, e: nat, k: nat) returns (last: nat)
    requires CardsOnly(cfg, num) && FewDigits(num, card) && e <= k < |card|
    requires Passing(num, card[..e]) && !Passing(num, card[..k])
    ensures e <= last < k && Process(cfg, INITIAL, [card[..k], card[k..]]) == cfg.placeholder + card[last..]
  {
    var front, back := card[..k], card[k..];
    DigitsCut(num, card, e, k);
    last := UnquietIsCut(cfg.patterns[0], num, cfg.placeholder, front, e);
    DigitsCut(num, card, last, k);
    FrontComesOut(cfg, num, front, front[last..]);
    RestComesOut(cfg, num, Feed(cfg, INITIAL, front).0, back, card[last..]);
    TwoProcessed(cfg, front, back);
    AppendNil(cfg.placeholder);
  }

  lemma DigitsCut(num: Numerals, card: string, e: nat, k: nat)
    requires FewDigits(num, card) && e <= k <= |card|
    ensures card[..k][..e] == card[..e] && card[..k][e..] + card[k..] == card[e..]
    ensures FewDigits(num, card[..k]) && FewDigits(num, card[..k][e..]) && FewDigits(num, card[e..])
  {
  }

  lemma FrontComesOut(cfg: Config, num: Numerals, front: string, held: string)
    requires CardsOnly(cfg, num) && front != "" && FewDigits(num, held)
    requires Shown(Pass(cfg.patterns[0], front, true), cfg.placeholder) == cfg.placeholder + held
    ensures var (st, shown) := Feed(cfg, INITIAL, front);
            shown == cfg.placeholder && st.buffer == held && !st.suppressing
  {
    OneDetector(cfg, num, front, true);
    AppendNil(front);
    DigitsWait(cfg, num, INITIAL, front, cfg.placeholder, held);
  }

  lemma RestComesOut(cfg: Config, num: Numerals, st: State, back: string, rest: string)
    requires CardsOnly(cfg, num) && FewDigits(num, rest) && |rest| < 13
    requires !st.suppressing && back != "" && st.buffer + back == rest
    ensures var (end, shown) := Feed(cfg, st, back);
            shown == "" && Flush(cfg, end).1 == rest
  {
    ShortIsKept(cfg.patterns[0], num, cfg.placeholder, rest);
    NothingIsQuiet(num);
    AppendNil(rest);
    QuietWaits(cfg, num, st, back, "", rest);
    OneDetector(cfg, num, rest, false);
  }

  lemma TwoProcessed(cfg: Config, a: string, b: string)
    requires cfg.WellFormed()
    ensures var (st, first) := Feed(cfg, INITIAL, a);
            var (end, second) := Feed(cfg, st, b);
            Process(cfg, INITIAL, [a, b]) == first + second + Flush(cfg, end).1
  {
    TwoFed(cfg, a, b);
  }

  lemma TwoFed(cfg: Config, a: string, b: string)
    requires cfg.WellFormed()
    ensures var (st, first) := Feed(cfg, INITIAL, a);
            var (end, second) := Feed(cfg, st, b);
            FeedAll(cfg, INITIAL, [a, b]) == (end, first + second)
  {
    FeedOne(cfg, INITIAL, a);
    FeedOne(cfg, Feed(cfg, INITIAL, a).0, b);
    FeedAllAppend(cfg, INITIAL, [a], [b]);
    assert [a] + [b] == [a, b];
  }

  // ---- Exactly when -----------------------------------------------------------------------------

  ghost predicate HiddenIn(cfg: Config, num: Numerals, x: string, card: string, y: string, chunks: seq<string>)
    requires cfg.WellFormed()
  {
    NoDigits(num, x) && NoDigits(num, y) && Concat(chunks) == x + card + y
    ==> Process(cfg, INITIAL, chunks) == x + cfg.placeholder + y
  }

  /** Among any words, cut in any way, the card is shown as one placeholder. */
  ghost predicate AlwaysHidden(cfg: Config, num: Numerals, card: string)
    requires cfg.WellFormed()
  {
    forall x, y, chunks :: HiddenIn(cfg, num, x, card, y, chunks)
  }

  /** Main result: a card of digits alone is shown as one placeholder, among any words and for every cut, exactly
      if every beginning of it that passes the check only grows into ones that do. */
  lemma CutsNeverMatterExactlyWhenSteady(cfg: Config, num: Numerals, card: string)
    requires CardsOnly(cfg, num) && PlainCard(num, card)
    ensures AlwaysHidden(cfg, num, card) <==> Steady(num, card)
  {
    if Steady(num, card) {
      forall x, y, chunks
        ensures HiddenIn(cfg, num, x, card, y, chunks)
      {
        if NoDigits(num, x) && NoDigits(num, y) && Concat(chunks) == x + card + y {
          SteadyCardIsHidden(cfg, num, x, card, y, chunks);
        }
      }
    } else {
      var e, k :| 0 <= e <= k <= |card| && Passing(num, card[..e]) && !Passing(num, card[..k]);
      assert card[..|card|] == card;
      var last := UnsteadyCardLeaks(cfg, num, card, e, k);
      LeakIsSeen(cfg, num, card, k, last);
    }
  }

  lemma LeakIsSeen(cfg: Config, num: Numerals, card: string, k: nat, last: nat)
    requires cfg.WellFormed() && last < k < |card|
    requires Process(cfg, INITIAL, [card[..k], card[k..]]) == cfg.placeholder + card[last..]
    ensures !AlwaysHidden(cfg, num, card)
  {
    var chunks := [card[..k], card[k..]];
    SplitsAndJoins(card, k);
    assert chunks[1..] == [card[k..]];
    ConcatSingle(card[k..]);
    AppendNil(card);
    AppendNil(cfg.placeholder);
    assert NoDigits(num, "") && Concat(chunks) == "" + card + "";
    assert |cfg.placeholder + card[last..]| > |"" + cfg.placeholder + ""|;
    assert !HiddenIn(cfg, num, "", card, "", chunks);
  }

  // ---- Such cards exist -----------------------------------------------------------------------

  /** `write` gives every digit value a character. */
  ghost predicate Writes(num: Numerals, write: nat -> char) {
    forall d: nat | d <= 9 :: num.digit(write(d)) && num.value(write(d)) == d
  }

  lemma WriteOne(num: Numerals, write: nat -> char, s: string, d: nat)
    requires num.Valid() && Writes(num, write) && d <= 9
    ensures Digits(num, s + [write(d)]) == Digits(num, s) + [d]
  {
    DigitsAppend(num, s, [write(d)]);
    assert [write(d)][1..] == "";
    assert Digits(num, [write(d)]) == [d];
  }

  /** Every card of up to seventeen digits is the beginning of one that is not steady. */
  lemma UnsteadyCardExists(num: Numerals, write: nat -> char, start: string) returns (card: string)
    requires num.Valid() && Writes(num, write) && PlainCard(num, start) && |start| <= 17
    ensures start <= card && PlainCard(num, card) && !Steady(num, card)
  {
    var ds := Digits(num, start);
    DigitsCount(num, start);
    var wrong := (CheckDigit(ds) + 1) % 10;
    OneCheckDigit(ds, wrong);
    WriteOne(num, write, start, wrong);
    var longer := start + [write(wrong)];
    var right := CheckDigit(ds + [wrong]);
    OneCheckDigit(ds + [wrong], right);
    WriteOne(num, write, longer, right);
    card := longer + [write(right)];
    assert card[..|start|] == start && card[..|longer|] == longer;
  }

  // ---- Such a detector exists -----------------------------------------------------------------

  function TrailingDigits(num: Numerals, text: string): (n: nat)
    ensures n <= |text|
  {
    if text == "" || !num.digit(text[|text| - 1]) then 0 else 1 + TrailingDigits(num, text[..|text| - 1])
  }

  /** A scan that reports the digits at the end. */
  function ScanDigits(num: Numerals, text: string): seq<Hit> {
    [Hit(|text| - TrailingDigits(num, text), |text|, true)]
  }

  lemma {:induction false} TrailingIs(num: Numerals, words: string, digits: string)
    requires NoDigits(num, words) && forall i | 0 <= i < |digits| :: num.digit(digits[i])
    ensures TrailingDigits(num, words + digits) == |digits|
    decreases |digits|
  {
    if digits == "" {
      AppendNil(words);
    } else {
      LastOfAppend(words, digits);
      TrailingIs(num, words, digits[..|digits| - 1]);
    }
  }

  lemma CardDetectorExists(num: Numerals) returns (p: Pattern)
    requires num.Valid()
    ensures IsCardDetector(p, num) && HoldsDigits(p, num)
  {
    var scan := (text: string) => ScanDigits(num, text);
    p := CardPattern(num, scan);
    forall words: string, digits: string | NoDigits(num, words) && FewDigits(num, digits)
      ensures HeldFrom(p, words, digits)
    {
      TrailingIs(num, words, digits);
      assert p.scan(words + digits) == ScanDigits(num, words + digits);
      assert |ScanDigits(num, words + digits)[..0]| == 0;
    }
  }
}

/** The pass of the card detector over a text: every number that passes the check is replaced, up to its last
    passing end, and nothing else is. */
module CardPass {
  import opened Basics
  import opened Detectors
  import opened Pieces
  import opened Redaction
  import opened Luhn
  import opened CardSearch

  /** The card detector, whatever its partial-match scan. */
  ghost predicate IsCardDetector(p: Pattern, num: Numerals) {
    num.Valid() && p.WellFormed() && IsCardPattern(p, num)
    && forall text, from: nat :: p.search(text, from) == Search(num, text, from)
  }

  // ---- What a pass should show ----------------------------------------------------------------

  /** The last end up to `limit` at which a card passes the check, by trying every end. */
  function LastCard(num: Numerals, text: string, start: nat, limit: int): (r: Option<nat>)
    requires num.Valid() && start <= |text| && limit <= |text|
    ensures r.Some? ==> start < r.value <= limit
    decreases limit - start + 1
  {
    if limit < start then None
    else if CardEndsAt(num, text, start, limit) then Some(limit)
    else LastCard(num, text, start, limit - 1)
  }

  lemma {:induction false} LastCardIsLast(num: Numerals, text: string, start: nat, limit: int)
    requires num.Valid() && start <= |text| && limit <= |text|
    ensures LastCardEnd(num, text, start, limit, LastCard(num, text, start, limit))
    decreases limit - start + 1
  {
    if start <= limit && !CardEndsAt(num, text, start, limit) {
      LastCardIsLast(num, text, start, limit - 1);
    }
  }

  /** Where the card at `i` ends, if one is to be hidden there: the expression matches, some end of the match
      passes the check, and the last such end is not a protected tail. */
  function CardTo(num: Numerals, text: string, protectTail: bool, i: nat): (r: Option<nat>)
    requires num.Valid() && i < |text|
    ensures r.Some? ==> i < r.value <= |text|
  {
    match GreedyMatch(num, text, i, |text|)
    case None => None
    case Some(end) =>
      Unprotected(LastCard(num, text, i, end), protectTail, |text|)
  }

  function Unprotected(last: Option<nat>, protectTail: bool, n: nat): Option<nat> {
    if protectTail && last == Some(n) then None else last
  }

  /** What is to be hidden at every position of a text. */
  ghost function Ends(num: Numerals, text: string, protectTail: bool): (ends: seq<Option<nat>>)
    requires num.Valid()
    ensures |ends| == |text| && Proper(ends)
  {
    seq(|text|, i requires 0 <= i < |text| => CardTo(num, text, protectTail, i))
  }

  /** What is hidden at a position ends behind it. */
  ghost predicate Proper(ends: seq<Option<nat>>) {
    forall i | 0 <= i < |ends| && ends[i].Some? :: i < ends[i].value <= |ends|
  }

  /** A text with something hidden at some positions, from left to right. */
  ghost function Mask(ends: seq<Option<nat>>, placeholder: string, text: string, from: nat): string
    requires |ends| == |text| && Proper(ends) && from <= |text|
    decreases |text| - from
  {
    if from == |text| then ""
    else
      match ends[from]
      case Some(end) => placeholder + Mask(ends, placeholder, text, end)
      case None => [text[from]] + Mask(ends, placeholder, text, from + 1)
  }

  /** The text with its cards hidden, position by position. */
  ghost function Masked(num: Numerals, placeholder: string, text: string, protectTail: bool): string
    requires num.Valid()
  {
    Mask(Ends(num, text, protectTail), placeholder, text, 0)
  }

  /** Nothing is to be hidden from `from` up to `stop`. */
  ghost predicate Clear(ends: seq<Option<nat>>, from: nat, stop: nat) {
    forall i | from <= i < stop && i < |ends| :: ends[i].None?
  }

  lemma {:induction false} MaskCopies(ends: seq<Option<nat>>, placeholder: string, text: string, from: nat, stop: nat)
    requires |ends| == |text| && Proper(ends) && from <= stop <= |text| && Clear(ends, from, stop)
    ensures Mask(ends, placeholder, text, from) == text[from..stop] + Mask(ends, placeholder, text, stop)
    decreases stop - from
  {
    var last := Mask(ends, placeholder, text, stop);
    if from == stop {
      AppendNil(last);
    } else {
      MaskCopies(ends, placeholder, text, from + 1, stop);
      SliceUncons(text, from, stop);
      Associative([text[from]], text[from + 1..stop], last);
    }
  }

  lemma SliceUncons(text: string, from: nat, stop: nat)
    requires from < stop <= |text|
    ensures [text[from]] + text[from + 1..stop] == text[from..stop]
  {
  }

  lemma MaskHides(ends: seq<Option<nat>>, placeholder: string, text: string, from: nat, start: nat)
    requires |ends| == |text| && Proper(ends) && from <= start < |text| && Clear(ends, from, start) && ends[start].Some?
    ensures Mask(ends, placeholder, text, from)
         == text[from..start] + placeholder + Mask(ends, placeholder, text, ends[start].value)
  {
    MaskCopies(ends, placeholder, text, from, start);
    Associative(text[from..start], placeholder, Mask(ends, placeholder, text, ends[start].value));
  }

  lemma MaskToEnd(ends: seq<Option<nat>>, placeholder: string, text: string, from: nat)
    requires |ends| == |text| && Proper(ends) && from <= |text| && Clear(ends, from, |text|)
    ensures Mask(ends, placeholder, text, from) == text[from..]
  {
    MaskCopies(ends, placeholder, text, from, |text|);
    AppendNil(text[from..]);
  }

  /** The same from position `a` on. */
  ghost predicate Moves(ends: seq<Option<nat>>, rest: seq<Option<nat>>, a: nat) {
    |ends| == a + |rest| && forall i | 0 <= i < |rest| :: ends[a + i] == Moved(rest[i], a)
  }

  function Moved(r: Option<nat>, a: nat): Option<nat> {
    match r
    case None => None
    case Some(e) => Some(a + e)
  }

  lemma MaskStep(ends: seq<Option<nat>>, placeholder: string, text: string, from: nat)
    requires |ends| == |text| && Proper(ends) && from < |text|
    ensures ends[from].Some? ==> Mask(ends, placeholder, text, from) == placeholder + Mask(ends, placeholder, text, ends[from].value)
    ensures ends[from].None? ==> Mask(ends, placeholder, text, from) == [text[from]] + Mask(ends, placeholder, text, from + 1)
  {
  }

  lemma {:induction false} MaskMoves(ends: seq<Option<nat>>, rest: seq<Option<nat>>, placeholder: string,
                                     text: string, y: string, a: nat, i: nat)
    requires |ends| == |text| && |rest| == |y| && Proper(ends) && Proper(rest) && Moves(ends, rest, a)
    requires i <= |y| && a <= |text| && text[a..] == y
    ensures Mask(ends, placeholder, text, a + i) == Mask(rest, placeholder, y, i)
    decreases |y| - i
  {
    if i < |y| {
      if rest[i].Some? {
        MaskMoves(ends, rest, placeholder, text, y, a, rest[i].value);
        HiddenMoves(ends, rest, placeholder, text, y, a, i, rest[i].value);
      } else {
        MaskMoves(ends, rest, placeholder, text, y, a, i + 1);
        ShownMoves(ends, rest, placeholder, text, y, a, i);
      }
    }
  }

  lemma HiddenMoves(ends: seq<Option<nat>>, rest: seq<Option<nat>>, placeholder: string,
                    text: string, y: string, a: nat, i: nat, next: nat)
    requires |ends| == |text| && |rest| == |y| && Proper(ends) && Proper(rest) && Moves(ends, rest, a)
    requires i < |y| && rest[i] == Some(next)
    requires a + next <= |text| && Mask(ends, placeholder, text, a + next) == Mask(rest, placeholder, y, next)
    ensures Mask(ends, placeholder, text, a + i) == Mask(rest, placeholder, y, i)
  {
    MovesAt(ends, rest, a, i);
    MaskStep(ends, placeholder, text, a + i);
    MaskStep(rest, placeholder, y, i);
  }

  lemma ShownMoves(ends: seq<Option<nat>>, rest: seq<Option<nat>>, placeholder: string,
                   text: string, y: string, a: nat, i: nat)
    requires |ends| == |text| && |rest| == |y| && Proper(ends) && Proper(rest) && Moves(ends, rest, a)
    requires i < |y| && rest[i].None? && a <= |text| && text[a..] == y
    requires Mask(ends, placeholder, text, a + i + 1) == Mask(rest, placeholder, y, i + 1)
    ensures Mask(ends, placeholder, text, a + i) == Mask(rest, placeholder, y, i)
  {
    MovesAt(ends, rest, a, i);
    CharacterMoves(text, y, a, i);
    MaskStep(ends, placeholder, text, a + i);
    MaskStep(rest, placeholder, y, i);
  }

  lemma CharacterMoves(text: string, y: string, a: nat, i: nat)
    requires a <= |text| && text[a..] == y && i < |y|
    ensures |text| == a + |y| && text[a + i] == y[i]
  {
  }

  lemma MovesAt(ends: seq<Option<nat>>, rest: seq<Option<nat>>, a: nat, i: nat)
    requires Moves(ends, rest, a) && i < |rest|
    ensures ends[a + i] == Moved(rest[i], a)
  {
  }

  // ---- The search for the next span -----------------------------------------------------------

  lemma LastIsUnique(num: Numerals, text: string, start: nat, limit: int, a: Option<nat>, b: Option<nat>)
    requires num.Valid() && limit <= |text|
    requires LastCardEnd(num, text, start, limit, a) && LastCardEnd(num, text, start, limit, b)
    ensures a == b
  {
    if a.Some? && b.Some? {
      assert a.value <= b.value && b.value <= a.value;
    }
  }

  /** The detector's answer at the start of a match. */
  lemma EndOfMatch(p: Pattern, num: Numerals, text: string, span: Span)
    requires IsCardDetector(p, num) && span.start <= span.end <= |text|
    requires GreedyMatch(num, text, span.start, |text|) == Some(span.end)
    ensures p.ValidatedEnd(text, span.start, span.end) == LastCard(num, text, span.start, span.end)
  {
    ValidatedEndIsExact(p, num, text, span.start, span.end);
    LastCardIsLast(num, text, span.start, span.end);
    LastIsUnique(num, text, span.start, span.end, p.ValidatedEnd(text, span.start, span.end),
                 LastCard(num, text, span.start, span.end));
  }

  lemma {:induction false} SearchSkips(num: Numerals, text: string, protectTail: bool, from: nat)
    requires num.Valid() && from <= |text|
    ensures Clear(Ends(num, text, protectTail), from, StartOr(Search(num, text, from), |text|))
    decreases |text| - from
  {
    if from < |text| && GreedyMatch(num, text, from, |text|).None? {
      SearchSkips(num, text, protectTail, from + 1);
      assert Ends(num, text, protectTail)[from] == CardTo(num, text, protectTail, from);
    }
  }

  function StartOr(r: Option<Span>, n: nat): nat {
    if r.Some? then r.value.start else n
  }

  /** `r` is the first thing to be hidden, at or after `from`. */
  ghost predicate IsNext(ends: seq<Option<nat>>, from: nat, r: Option<Span>) {
    && (r.Some? ==> from <= r.value.start < |ends| && ends[r.value.start] == Some(r.value.end))
    && Clear(ends, from, StartOr(r, |ends|))
  }

  lemma SkipOne(ends: seq<Option<nat>>, from: nat, i: nat, r: Option<Span>)
    requires from <= i < |ends| && Clear(ends, from, i) && ends[i].None? && IsNext(ends, i + 1, r)
    ensures IsNext(ends, from, r)
  {
  }

  lemma DetectorSearches(p: Pattern, num: Numerals, text: string, from: nat)
    requires IsCardDetector(p, num)
    ensures p.search(text, from) == Search(num, text, from)
  {
  }

  lemma NothingFound(p: Pattern, text: string, protectTail: bool, from: nat)
    requires p.WellFormed() && p.search(text, from).None?
    ensures NextSpan(p, text, protectTail, from).None?
  {
  }

  /** The answer at one match, and where the search goes from there. */
  lemma NextSpanStep(p: Pattern, text: string, protectTail: bool, from: nat, span: Span, last: Option<nat>)
    requires p.WellFormed() && from <= span.start <= span.end <= |text|
    requires p.search(text, from) == Some(span) && p.ValidatedEnd(text, span.start, span.end) == last
    ensures NextSpan(p, text, protectTail, from)
         == match Unprotected(last, protectTail, |text|)
            case Some(end) => Some(Span(span.start, end))
            case None => NextSpan(p, text, protectTail, span.start + 1)
  {
  }

  lemma UnmatchedIsClear(num: Numerals, text: string, protectTail: bool, i: nat)
    requires num.Valid() && i < |text| && GreedyMatch(num, text, i, |text|).None?
    ensures CardTo(num, text, protectTail, i).None?
  {
  }

  lemma MatchedCard(num: Numerals, text: string, protectTail: bool, i: nat, end: nat)
    requires num.Valid() && i < |text| && GreedyMatch(num, text, i, |text|) == Some(end)
    ensures CardTo(num, text, protectTail, i) == Unprotected(LastCard(num, text, i, end), protectTail, |text|)
  {
  }

  /** The next span is the next card to be hidden. */
  lemma {:induction false} NextSpanIsCard(p: Pattern, num: Numerals, text: string, protectTail: bool, from: nat)
    requires IsCardDetector(p, num) && from <= |text|
    ensures IsNext(Ends(num, text, protectTail), from, NextSpan(p, text, protectTail, from))
    decreases |text| - from
  {
    var ends := Ends(num, text, protectTail);
    SearchSkips(num, text, protectTail, from);
    DetectorSearches(p, num, text, from);
    match Search(num, text, from)
    case None =>
      NothingFound(p, text, protectTail, from);
    case Some(span) =>
      MatchIsNotEmpty(num, text, span);
      EndOfMatch(p, num, text, span);
      NextSpanStep(p, text, protectTail, from, span, LastCard(num, text, span.start, span.end));
      MatchedCard(num, text, protectTail, span.start, span.end);
      if ends[span.start].None? {
        NextSpanIsCard(p, num, text, protectTail, span.start + 1);
        SkipOne(ends, from, span.start, NextSpan(p, text, protectTail, span.start + 1));
      }
  }

  lemma MatchIsNotEmpty(num: Numerals, text: string, span: Span)
    requires num.Valid() && GreedyMatch(num, text, span.start, |text|) == Some(span.end)
    ensures span.start < span.end <= |text|
  {
    assert MatchEnd(num, text, span.start, |text|, span.end);
  }

  // ---- The pass -------------------------------------------------------------------------------

  lemma SpanStep(p: Pattern, placeholder: string, text: string, protectTail: bool, from: nat, span: Span)
    requires p.WellFormed() && from <= |text| && span.end > span.start
    requires NextSpan(p, text, protectTail, from) == Some(span)
    ensures CutText(placeholder, text, from, FindSpans(p, text, protectTail, from))
         == text[from..span.start] + placeholder + CutText(placeholder, text, span.end, FindSpans(p, text, protectTail, span.end))
  {
    assert FindSpans(p, text, protectTail, from) == More(span.start, span.end, FindSpans(p, text, protectTail, span.end));
  }

  lemma {:induction false} SpansMask(p: Pattern, num: Numerals, placeholder: string, text: string, protectTail: bool, from: nat)
    requires IsCardDetector(p, num) && from <= |text|
    ensures CutText(placeholder, text, from, FindSpans(p, text, protectTail, from))
         == Mask(Ends(num, text, protectTail), placeholder, text, from)
    decreases |text| - from
  {
    var ends := Ends(num, text, protectTail);
    NextSpanIsCard(p, num, text, protectTail, from);
    match NextSpan(p, text, protectTail, from)
    case None =>
      MaskToEnd(ends, placeholder, text, from);
    case Some(span) =>
      SpansMask(p, num, placeholder, text, protectTail, span.end);
      MaskHides(ends, placeholder, text, from, span.start);
      SpanStep(p, placeholder, text, protectTail, from, span);
  }

  /** Main result: one pass of the card detector hides exactly the cards, left to right. */
  lemma PassMasksCards(p: Pattern, num: Numerals, placeholder: string, text: string, protectTail: bool)
    requires IsCardDetector(p, num)
    ensures Shown(Pass(p, text, protectTail), placeholder) == Masked(num, placeholder, text, protectTail)
  {
    SpansMask(p, num, placeholder, text, protectTail, 0);
    CutShows(placeholder, text, 0, FindSpans(p, text, protectTail, 0));
  }

  // ---- One card in a text ---------------------------------------------------------------------

  /** What may stand right behind a card: nothing that continues it. */
  predicate Delimits(num: Numerals, y: string) {
    y == "" || (!num.digit(y[0]) && (IsSeparator(y[0]) && |y| > 1 ==> !num.digit(y[1])))
  }

  /** What may stand right before a card: no digit. */
  predicate Precedes(num: Numerals, x: string) {
    x == "" || !num.digit(x[|x| - 1])
  }

  predicate IsCard(num: Numerals, card: string)
    requires num.Valid()
  {
    CardShaped(num, card) && Valid(Digits(num, card))
  }

  /** Nothing longer than a delimited card has the shape of one. */
  lemma NoLongerShape(num: Numerals, text: string, start: nat, end: nat, e: nat)
    requires num.Valid() && start <= end < e <= |text| && Delimits(num, text[end..])
    ensures !CardShaped(num, text[start..e])
  {
    var s, y, k := text[start..e], text[end..], end - start;
    assert y[0] == s[k] && (k < |s| - 1 ==> y[1] == s[k + 1]);
  }

  /** A card stands between its delimiters. */
  predicate Stands(num: Numerals, text: string, start: nat, end: nat)
    requires num.Valid()
  {
    && start <= end <= |text| && IsCard(num, text[start..end])
    && !(start > 0 && num.digit(text[start - 1])) && Delimits(num, text[end..])
  }

  lemma CardIsMatched(num: Numerals, text: string, start: nat, end: nat)
    requires num.Valid() && Stands(num, text, start, end)
    ensures GreedyMatch(num, text, start, |text|) == Some(end) && LastCard(num, text, start, end) == Some(end)
  {
    assert end < |text| ==> text[end..][0] == text[end];
    assert MatchEnd(num, text, start, |text|, end);
    var found := GreedyMatch(num, text, start, |text|);
    if found.Some? && found.value > end {
      NoLongerShape(num, text, start, end, found.value);
    }
  }

  /** A match begins with a digit. */
  lemma NoDigitNoMatch(num: Numerals, text: string, i: nat, limit: nat)
    requires num.Valid() && i < |text| && !num.digit(text[i])
    ensures GreedyMatch(num, text, i, limit).None?
  {
    assert forall e | i < e <= |text| :: text[i..e][0] == text[i];
  }

  /** No match starts before the card. */
  ghost predicate NoMatchBefore(num: Numerals, text: string, n: nat)
    requires num.Valid() && n <= |text|
  {
    forall i: nat | i < n :: GreedyMatch(num, text, i, |text|).None?
  }

  lemma NoMatchIsClear(num: Numerals, text: string, protectTail: bool, n: nat)
    requires num.Valid() && n <= |text| && NoMatchBefore(num, text, n)
    ensures Clear(Ends(num, text, protectTail), 0, n)
  {
  }

  lemma CardIsMasked(num: Numerals, placeholder: string, text: string, protectTail: bool, start: nat, end: nat)
    requires num.Valid() && Stands(num, text, start, end)
    requires NoMatchBefore(num, text, start) && (protectTail ==> end < |text|)
    ensures Masked(num, placeholder, text, protectTail)
         == text[..start] + placeholder + Mask(Ends(num, text, protectTail), placeholder, text, end)
  {
    CardIsMatched(num, text, start, end);
    MatchIsNotEmpty(num, text, Span(start, end));
    NoMatchIsClear(num, text, protectTail, start);
    assert CardTo(num, text, protectTail, start) == Some(end);
    MaskHides(Ends(num, text, protectTail), placeholder, text, 0, start);
    assert text[0..start] == text[..start];
  }

  // ---- The text behind a card -----------------------------------------------------------------

  /** `r` is the longest end of a match. */
  ghost predicate IsGreedy(num: Numerals, text: string, start: nat, r: Option<nat>)
    requires num.Valid()
  {
    && (r.Some? ==> MatchEnd(num, text, start, |text|, r.value))
    && (forall x: nat | r.Some? ==> r.value < x :: !MatchEnd(num, text, start, |text|, x))
  }

  lemma GreedyUnique(num: Numerals, text: string, start: nat, a: Option<nat>, b: Option<nat>)
    requires num.Valid() && IsGreedy(num, text, start, a) && IsGreedy(num, text, start, b)
    ensures a == b
  {
    if a.Some? && b.Some? {
      assert a.value <= b.value && b.value <= a.value;
    }
  }

  lemma LongestIsGreedy(num: Numerals, text: string, start: nat)
    requires num.Valid() && start <= |text|
    ensures IsGreedy(num, text, start, LongestEnd(num, text, start, |text|, |text|))
  {
  }

  lemma SameEnd(num: Numerals, text: string, a: nat, i: nat, e: nat)
    requires num.Valid() && a <= |text|
    ensures MatchEnd(num, text, a + i, |text|, a + e) == MatchEnd(num, text[a..], i, |text[a..]|, e)
  {
    if i <= e <= |text[a..]| {
      SliceOfSlice(text, a, |text|, i, e);
      assert text[a..|text|] == text[a..];
    }
  }

  lemma NotGreedyMoves(num: Numerals, text: string, a: nat, i: nat, r: Option<nat>, x: nat)
    requires num.Valid() && a <= |text| && IsGreedy(num, text[a..], i, r) && (r.Some? ==> a + r.value < x)
    ensures !MatchEnd(num, text, a + i, |text|, x)
  {
    if x >= a {
      SameEnd(num, text, a, i, x - a);
    }
  }

  lemma GreedyMoves(num: Numerals, text: string, a: nat, i: nat, r: Option<nat>)
    requires num.Valid() && a <= |text| && IsGreedy(num, text[a..], i, r)
    ensures IsGreedy(num, text, a + i, Moved(r, a))
  {
    if r.Some? {
      SameEnd(num, text, a, i, r.value);
    }
    var start := a + i;
    forall x: nat | r.Some? ==> a + r.value < x
      ensures !MatchEnd(num, text, start, |text|, x)
    {
      NotGreedyMoves(num, text, a, i, r, x);
    }
  }

  lemma MatchMoves(num: Numerals, text: string, a: nat, i: nat)
    requires num.Valid() && a + i < |text| && !num.digit(text[a])
    ensures GreedyMatch(num, text, a + i, |text|) == Moved(GreedyMatch(num, text[a..], i, |text[a..]|), a)
  {
    if i == 0 {
      NoDigitNoMatch(num, text, a, |text|);
      NoDigitNoMatch(num, text[a..], 0, |text[a..]|);
    } else {
      var y := text[a..];
      LongestIsGreedy(num, text, a + i);
      LongestIsGreedy(num, y, i);
      GreedyMoves(num, text, a, i, LongestEnd(num, y, i, |y|, |y|));
      GreedyUnique(num, text, a + i, LongestEnd(num, text, a + i, |text|, |text|), Moved(LongestEnd(num, y, i, |y|, |y|), a));
      assert text[a + i - 1] == y[i - 1];
    }
  }

  lemma SameCard(num: Numerals, text: string, a: nat, i: nat, e: nat)
    requires num.Valid() && a <= |text| && i <= e <= |text[a..]|
    ensures CardEndsAt(num, text, a + i, a + e) == CardEndsAt(num, text[a..], i, e)
  {
    SliceOfSlice(text, a, |text|, i, e);
    assert text[a..|text|] == text[a..];
  }

  lemma LastMoves(num: Numerals, text: string, a: nat, i: nat, limit: nat, r: Option<nat>)
    requires num.Valid() && a <= |text| && i <= |text[a..]| && limit <= |text[a..]|
    requires LastCardEnd(num, text[a..], i, limit, r)
    ensures LastCardEnd(num, text, a + i, a + limit, Moved(r, a))
  {
    if r.Some? {
      SameCard(num, text, a, i, r.value);
    }
    var start := a + i;
    forall e: nat | start <= e <= a + limit && (r.Some? ==> a + r.value < e)
      ensures !CardEndsAt(num, text, start, e)
    {
      SameCard(num, text, a, i, e - a);
    }
  }

  lemma LastCardMoves(num: Numerals, text: string, a: nat, i: nat, limit: nat)
    requires num.Valid() && a <= |text| && i <= |text[a..]| && limit <= |text[a..]|
    ensures LastCard(num, text, a + i, a + limit) == Moved(LastCard(num, text[a..], i, limit), a)
  {
    LastCardIsLast(num, text[a..], i, limit);
    LastMoves(num, text, a, i, limit, LastCard(num, text[a..], i, limit));
    LastCardIsLast(num, text, a + i, a + limit);
    LastIsUnique(num, text, a + i, a + limit, LastCard(num, text, a + i, a + limit),
                 Moved(LastCard(num, text[a..], i, limit), a));
  }

  lemma SameAnswer(answer: Option<nat>, moved: Option<nat>, last: Option<nat>, protectTail: bool, n: nat, a: nat)
    requires answer == Unprotected(last, protectTail, n) && moved == Unprotected(Moved(last, a), protectTail, a + n)
    ensures moved == Moved(answer, a)
  {
  }

  lemma MovedCard(num: Numerals, text: string, protectTail: bool, a: nat, i: nat, y: string, end: nat)
    requires num.Valid() && a + i < |text| && y == text[a..] && end <= |y|
    requires GreedyMatch(num, text, a + i, |text|) == Some(a + end)
    ensures CardTo(num, text, protectTail, a + i) == Unprotected(Moved(LastCard(num, y, i, end), a), protectTail, a + |y|)
  {
    MatchedCard(num, text, protectTail, a + i, a + end);
    LastCardMoves(num, text, a, i, end);
  }

  lemma CardMoves(num: Numerals, text: string, protectTail: bool, a: nat, i: nat)
    requires num.Valid() && a + i < |text| && !num.digit(text[a])
    ensures CardTo(num, text, protectTail, a + i) == Moved(CardTo(num, text[a..], protectTail, i), a)
  {
    var y := text[a..];
    MatchMoves(num, text, a, i);
    match GreedyMatch(num, y, i, |y|)
    case None =>
      UnmatchedIsClear(num, text, protectTail, a + i);
      UnmatchedIsClear(num, y, protectTail, i);
    case Some(end) =>
      MatchedCardMoves(num, text, protectTail, a, i, y, end);
  }

  lemma MatchedCardMoves(num: Numerals, text: string, protectTail: bool, a: nat, i: nat, y: string, end: nat)
    requires num.Valid() && a + i < |text| && y == text[a..] && end <= |y|
    requires GreedyMatch(num, text, a + i, |text|) == Some(a + end) && GreedyMatch(num, y, i, |y|) == Some(end)
    ensures CardTo(num, text, protectTail, a + i) == Moved(CardTo(num, y, protectTail, i), a)
  {
    MovedCard(num, text, protectTail, a, i, y, end);
    MatchedCard(num, y, protectTail, i, end);
    SameAnswer(CardTo(num, y, protectTail, i), CardTo(num, text, protectTail, a + i), LastCard(num, y, i, end),
               protectTail, |y|, a);
  }

  lemma EndsMove(num: Numerals, text: string, protectTail: bool, a: nat)
    requires num.Valid() && a <= |text| && (a < |text| ==> !num.digit(text[a]))
    ensures Moves(Ends(num, text, protectTail), Ends(num, text[a..], protectTail), a)
  {
    var ends, rest := Ends(num, text, protectTail), Ends(num, text[a..], protectTail);
    forall i | 0 <= i < |rest|
      ensures ends[a + i] == Moved(rest[i], a)
    {
      EndMoves(num, text, protectTail, a, i);
    }
  }

  lemma EndMoves(num: Numerals, text: string, protectTail: bool, a: nat, i: nat)
    requires num.Valid() && a + i < |text| && !num.digit(text[a])
    ensures Ends(num, text, protectTail)[a + i] == Moved(Ends(num, text[a..], protectTail)[i], a)
  {
    CardMoves(num, text, protectTail, a, i);
  }

  lemma ThreeParts(x: string, y: string, z: string)
    ensures var text := x + y + z;
            && text[..|x|] == x && text[|x|..|x + y|] == y && text[|x + y|..] == z
            && (|x| > 0 ==> text[|x| - 1] == x[|x| - 1]) && (|z| > 0 ==> text[|x + y|] == z[0])
  {
  }

  lemma CardStands(num: Numerals, x: string, card: string, y: string)
    requires num.Valid() && IsCard(num, card) && Precedes(num, x) && Delimits(num, y)
    ensures Stands(num, x + card + y, |x|, |x + card|)
  {
    ThreeParts(x, card, y);
  }

  lemma RestMoves(num: Numerals, placeholder: string, text: string, protectTail: bool, end: nat, y: string)
    requires num.Valid() && end <= |text| && text[end..] == y && (y != "" ==> !num.digit(y[0]))
    ensures Mask(Ends(num, text, protectTail), placeholder, text, end) == Masked(num, placeholder, y, protectTail)
  {
    assert end < |text| ==> text[end] == y[0];
    EndsMove(num, text, protectTail, end);
    MaskMoves(Ends(num, text, protectTail), Ends(num, y, protectTail), placeholder, text, y, end, 0);
  }

  lemma CardThenRest(num: Numerals, placeholder: string, text: string, protectTail: bool, start: nat, end: nat)
    requires num.Valid() && Stands(num, text, start, end)
    requires NoMatchBefore(num, text, start) && (protectTail ==> end < |text|)
    ensures Masked(num, placeholder, text, protectTail)
         == text[..start] + placeholder + Masked(num, placeholder, text[end..], protectTail)
  {
    CardIsMasked(num, placeholder, text, protectTail, start, end);
    RestMoves(num, placeholder, text, protectTail, end, text[end..]);
  }

  /** Main result: a card that stands between its delimiters, with no match before it, becomes one placeholder;
      what stands before it is kept, and what stands behind it is redacted as a text of its own. */
  lemma CardIsHidden(p: Pattern, num: Numerals, placeholder: string, x: string, card: string, y: string, protectTail: bool)
    requires IsCardDetector(p, num) && IsCard(num, card) && Precedes(num, x) && Delimits(num, y)
    requires NoMatchBefore(num, x + card + y, |x|) && (protectTail ==> y != "")
    ensures Shown(Pass(p, x + card + y, protectTail), placeholder)
         == x + placeholder + Shown(Pass(p, y, protectTail), placeholder)
  {
    ThreeParts(x, card, y);
    CardStands(num, x, card, y);
    CardThenRest(num, placeholder, x + card + y, protectTail, |x|, |x + card|);
    PassMasksCards(p, num, placeholder, x + card + y, protectTail);
    PassMasksCards(p, num, placeholder, y, protectTail);
  }

  ghost predicate NoDigits(num: Numerals, s: string) {
    forall i | 0 <= i < |s| :: !num.digit(s[i])
  }

  /** In particular, after a text without digits. */
  lemma CardAfterWords(p: Pattern, num: Numerals, placeholder: string, x: string, card: string, y: string, protectTail: bool)
    requires IsCardDetector(p, num) && IsCard(num, card) && NoDigits(num, x) && Delimits(num, y)
    requires protectTail ==> y != ""
    ensures Shown(Pass(p, x + card + y, protectTail), placeholder)
         == x + placeholder + Shown(Pass(p, y, protectTail), placeholder)
  {
    var text := x + card + y;
    forall i: nat | i < |x|
      ensures GreedyMatch(num, text, i, |text|).None?
    {
      assert text[i] == x[i];
      NoDigitNoMatch(num, text, i, |text|);
    }
    CardIsHidden(p, num, placeholder, x, card, y, protectTail);
  }

  /** A text without digits is left alone. */
  lemma WordsAreKept(p: Pattern, num: Numerals, placeholder: string, y: string, protectTail: bool)
    requires IsCardDetector(p, num) && NoDigits(num, y)
    ensures Shown(Pass(p, y, protectTail), placeholder) == y
  {
    forall i: nat | i < |y|
      ensures GreedyMatch(num, y, i, |y|).None?
    {
      NoDigitNoMatch(num, y, i, |y|);
    }
    NoMatchIsClear(num, y, protectTail, |y|);
    MaskToEnd(Ends(num, y, protectTail), placeholder, y, 0);
    PassMasksCards(p, num, placeholder, y, protectTail);
  }

  /** A longer number is no card, and none begins inside it: it is left alone. */
  lemma LongNumberIsKept(p: Pattern, num: Numerals, placeholder: string, x: string, digits: string, y: string, protectTail: bool)
    requires IsCardDetector(p, num) && NoDigits(num, x) && NoDigits(num, y)
    requires 20 <= |digits| && forall i | 0 <= i < |digits| :: num.digit(digits[i])
    ensures Shown(Pass(p, x + digits + y, protectTail), placeholder) == x + digits + y
  {
    var text := x + digits + y;
    forall i: nat | i < |text|
      ensures GreedyMatch(num, text, i, |text|).None?
    {
      if i == |x| {
        LongNumberNoMatch(num, x, digits, y);
      } else if |x| < i < |x| + |digits| {
        assert text[i - 1] == digits[i - 1 - |x|];
      } else {
        assert text[i] == if i < |x| then x[i] else y[i - |x| - |digits|];
        NoDigitNoMatch(num, text, i, |text|);
      }
    }
    NoMatchIsClear(num, text, protectTail, |text|);
    MaskToEnd(Ends(num, text, protectTail), placeholder, text, 0);
    PassMasksCards(p, num, placeholder, text, protectTail);
    assert text[0..] == text;
  }

  lemma LongNumberNoMatch(num: Numerals, x: string, digits: string, y: string)
    requires num.Valid() && 20 <= |digits| && forall i | 0 <= i < |digits| :: num.digit(digits[i])
    ensures GreedyMatch(num, x + digits + y, |x|, |x + digits + y|).None?
  {
    var text, start := x + digits + y, |x|;
    forall e: nat | start <= e <= |text|
      ensures !MatchEnd(num, text, start, |text|, e)
    {
      if e < start + |digits| {
        assert text[e] == digits[e - start];
      } else {
        TooManyDigits(num, digits, y[..e - start - |digits|]);
        DigitsAndMore(x, digits, y, e - start - |digits|);
      }
    }
  }

  lemma DigitsAndMore(x: string, digits: string, y: string, j: nat)
    requires j <= |y|
    ensures (x + digits + y)[|x|..|x| + |digits| + j] == digits + y[..j]
  {
  }

  lemma TooManyDigits(num: Numerals, digits: string, rest: string)
    requires num.Valid() && 20 <= |digits| && forall i | 0 <= i < |digits| :: num.digit(digits[i])
    ensures |Digits(num, digits + rest)| > 19
  {
    DigitsAppend(num, digits, rest);
    DigitsAt(num, digits, 0);
  }
}

/** Replacing the words of a fixed-length language in a text: the whole-text replacement, the pass of a
    detector that finds the language, and how much of a text that pass settles whatever follows. */
module Replacing {
  import opened Basics
  import opened Detectors
  import opened Pieces
  import opened Redaction
  import opened RedactorSafety

  /** The whole-text answer: replace words from left to right, never looking back. */
  function Replace(language: Language, placeholder: string, text: string): string
    requires 1 <= language.length
    decreases |text|
  {
    if |text| == 0 then ""
    else if language.WordAt(text, 0) then
      placeholder + Replace(language, placeholder, text[language.length..])
    else
      [text[0]] + Replace(language, placeholder, text[1..])
  }

  // ---- One pass -------------------------------------------------------------------------------

  /** The pass, position by position: a word is replaced unless it is a protected tail. */
  function Settle(language: Language, placeholder: string, text: string, protectTail: bool, from: nat): string
    requires 1 <= language.length && from <= |text|
    decreases |text| - from
  {
    if from == |text| then ""
    else if language.WordAt(text, from) && !(protectTail && from + language.length == |text|) then
      placeholder + Settle(language, placeholder, text, protectTail, from + language.length)
    else
      [text[from]] + Settle(language, placeholder, text, protectTail, from + 1)
  }

  /** The same pass as pieces. */
  function SettlePieces(language: Language, text: string, protectTail: bool, from: nat): seq<Piece>
    requires 1 <= language.length && from <= |text|
    decreases |text| - from
  {
    if from == |text| then []
    else if language.WordAt(text, from) && !(protectTail && from + language.length == |text|) then
      [Hidden(text[from..from + language.length])] + SettlePieces(language, text, protectTail, from + language.length)
    else
      [Kept(text[from])] + SettlePieces(language, text, protectTail, from + 1)
  }

  /** The pieces take `text` to `shown` and drop nothing. */
  ghost predicate EditOf(ps: seq<Piece>, text: string, placeholder: string, shown: string) {
    Source(ps) == text && Shown(ps, placeholder) == shown && forall p | p in ps :: !p.Dropped?
  }

  lemma ConsEdit(first: Piece, rest: seq<Piece>, text: string, placeholder: string, shown: string)
    requires EditOf(rest, text, placeholder, shown) && !first.Dropped?
    ensures EditOf([first] + rest, SourceOf(first) + text, placeholder, ShownOf(first, placeholder) + shown)
  {
    ConsPieces(first, rest, placeholder);
  }

  lemma {:induction false} SettleIsAnEdit(language: Language, placeholder: string, text: string, protectTail: bool, from: nat)
    requires 1 <= language.length && from <= |text|
    ensures EditOf(SettlePieces(language, text, protectTail, from), text[from..], placeholder,
                   Settle(language, placeholder, text, protectTail, from))
    decreases |text| - from
  {
    if from < |text| {
      var word := language.WordAt(text, from) && !(protectTail && from + language.length == |text|);
      var next := if word then from + language.length else from + 1;
      SettleIsAnEdit(language, placeholder, text, protectTail, next);
      ConsEdit(if word then Hidden(text[from..next]) else Kept(text[from]), SettlePieces(language, text, protectTail, next),
               text[next..], placeholder, Settle(language, placeholder, text, protectTail, next));
      SlicesMeet(text, from, next);
    }
  }

  lemma ConsPieces(first: Piece, rest: seq<Piece>, placeholder: string)
    ensures Source([first] + rest) == SourceOf(first) + Source(rest)
    ensures Shown([first] + rest, placeholder) == ShownOf(first, placeholder) + Shown(rest, placeholder)
  {
    assert ([first] + rest)[1..] == rest;
  }

  lemma SlicesMeet(text: string, from: nat, next: nat)
    requires from < next <= |text|
    ensures text[from..next] + text[next..] == text[from..]
    ensures next == from + 1 ==> text[from..next] == [text[from]]
  {
  }

  /** A pass over what follows turns no position of `x` into a start. */
  lemma SettleOpensNoStart(other: Language, language: Language, placeholder: string, x: string, text: string,
                           protectTail: bool, from: nat)
    requires other.Valid() && other.Avoids(placeholder) && language.Valid() && from <= |text| && |x| > 0
    requires !other.StartsAt(x + text[from..], 0)
    ensures !other.StartsAt(x + Settle(language, placeholder, text, protectTail, from), 0)
  {
    SettleIsAnEdit(language, placeholder, text, protectTail, from);
    EditOpensNoStart(other, placeholder, x, SettlePieces(language, text, protectTail, from), 1);
  }

  /** The pass replaces nothing that starts in `text[from..stop]`. */
  ghost predicate Skips(language: Language, text: string, protectTail: bool, from: nat, stop: nat) {
    forall i: nat | from <= i < stop :: language.WordAt(text, i) ==> protectTail && i + language.length == |text|
  }

  lemma {:induction false} SettleCopies(language: Language, placeholder: string, text: string, protectTail: bool,
                                        from: nat, stop: nat)
    requires language.Valid() && from <= stop <= |text|
    requires Skips(language, text, protectTail, from, stop)
    ensures Settle(language, placeholder, text, protectTail, from)
         == text[from..stop] + Settle(language, placeholder, text, protectTail, stop)
    decreases stop - from
  {
    var last := Settle(language, placeholder, text, protectTail, stop);
    if from == stop {
      assert text[from..stop] + last == last;
    } else {
      SettleCopies(language, placeholder, text, protectTail, from + 1, stop);
      assert [text[from]] + text[from + 1..stop] == text[from..stop];
      Associative([text[from]], text[from + 1..stop], last);
    }
  }

  lemma SettleAtWord(language: Language, placeholder: string, text: string, protectTail: bool, from: nat, start: nat)
    requires language.Valid() && from <= start
    requires language.WordAt(text, start) && !(protectTail && start + language.length == |text|)
    requires Skips(language, text, protectTail, from, start)
    ensures Settle(language, placeholder, text, protectTail, from)
         == text[from..start] + placeholder + Settle(language, placeholder, text, protectTail, start + language.length)
  {
    SettleCopies(language, placeholder, text, protectTail, from, start);
    Prepend(text[from..start], Settle(language, placeholder, text, protectTail, start), placeholder,
            Settle(language, placeholder, text, protectTail, start + language.length));
  }

  lemma SettleNoWord(language: Language, placeholder: string, text: string, protectTail: bool, from: nat)
    requires language.Valid() && from <= |text|
    requires Skips(language, text, protectTail, from, |text|)
    ensures Settle(language, placeholder, text, protectTail, from) == text[from..]
  {
    SettleCopies(language, placeholder, text, protectTail, from, |text|);
    assert text[from..|text|] + "" == text[from..];
  }

  lemma OwnSpanIsWord(language: Language, p: Pattern, text: string, protectTail: bool, from: nat, span: Span)
    requires language.Valid() && p.WellFormed() && Finds(p, language)
    requires NextSpan(p, text, protectTail, from) == Some(span)
    ensures from <= span.start && span.end == span.start + language.length <= |text|
    ensures language.WordAt(text, span.start) && !(protectTail && span.end == |text|)
    ensures Skips(language, text, protectTail, from, span.start)
  {
    OwnNextSpan(language, p, text, protectTail, from);
  }

  lemma NoSpanSkips(language: Language, p: Pattern, text: string, protectTail: bool, from: nat)
    requires language.Valid() && p.WellFormed() && Finds(p, language)
    requires NextSpan(p, text, protectTail, from).None?
    ensures Skips(language, text, protectTail, from, |text|)
  {
    OwnNextSpan(language, p, text, protectTail, from);
  }

  lemma CutTextStep(p: Pattern, placeholder: string, text: string, protectTail: bool, from: nat, span: Span)
    requires p.WellFormed() && from <= |text| && span.end > span.start
    requires NextSpan(p, text, protectTail, from) == Some(span)
    ensures CutText(placeholder, text, from, FindSpans(p, text, protectTail, from))
         == text[from..span.start] + placeholder + CutText(placeholder, text, span.end, FindSpans(p, text, protectTail, span.end))
  {
    assert FindSpans(p, text, protectTail, from) == More(span.start, span.end, FindSpans(p, text, protectTail, span.end));
  }

  lemma PassAtEnd(language: Language, p: Pattern, placeholder: string, text: string, protectTail: bool, from: nat)
    requires language.Valid() && p.WellFormed() && Finds(p, language) && from <= |text|
    requires NextSpan(p, text, protectTail, from).None?
    ensures CutText(placeholder, text, from, FindSpans(p, text, protectTail, from))
         == Settle(language, placeholder, text, protectTail, from)
  {
    NoSpanSkips(language, p, text, protectTail, from);
    SettleNoWord(language, placeholder, text, protectTail, from);
  }

  lemma PassAtSpan(language: Language, p: Pattern, placeholder: string, text: string, protectTail: bool, from: nat, span: Span)
    requires language.Valid() && p.WellFormed() && Finds(p, language) && from <= |text| && span.end <= |text|
    requires NextSpan(p, text, protectTail, from) == Some(span)
    requires CutText(placeholder, text, span.end, FindSpans(p, text, protectTail, span.end))
          == Settle(language, placeholder, text, protectTail, span.end)
    ensures CutText(placeholder, text, from, FindSpans(p, text, protectTail, from))
         == Settle(language, placeholder, text, protectTail, from)
  {
    OwnSpanIsWord(language, p, text, protectTail, from, span);
    SettleAtWord(language, placeholder, text, protectTail, from, span.start);
    CutTextStep(p, placeholder, text, protectTail, from, span);
  }

  /** The pass of the language's own detector goes position by position. */
  lemma {:induction false} PassSettles(language: Language, p: Pattern, placeholder: string, text: string,
                                       protectTail: bool, from: nat)
    requires language.Valid() && p.WellFormed() && Finds(p, language) && from <= |text|
    ensures CutText(placeholder, text, from, FindSpans(p, text, protectTail, from))
         == Settle(language, placeholder, text, protectTail, from)
    decreases |text| - from
  {
    var found := NextSpan(p, text, protectTail, from);
    if found.None? {
      PassAtEnd(language, p, placeholder, text, protectTail, from);
    } else {
      OwnSpanIsWord(language, p, text, protectTail, from, found.value);
      PassSettles(language, p, placeholder, text, protectTail, found.value.end);
      PassAtSpan(language, p, placeholder, text, protectTail, from, found.value);
    }
  }

  lemma PassIsSettle(language: Language, p: Pattern, placeholder: string, text: string, protectTail: bool)
    requires language.Valid() && p.WellFormed() && Finds(p, language)
    ensures Shown(Pass(p, text, protectTail), placeholder) == Settle(language, placeholder, text, protectTail, 0)
  {
    PassSettles(language, p, placeholder, text, protectTail, 0);
    CutShows(placeholder, text, 0, FindSpans(p, text, protectTail, 0));
  }

  lemma ReplaceHere(language: Language, placeholder: string, text: string, from: nat)
    requires language.Valid() && from < |text|
    ensures Replace(language, placeholder, text[from..]) ==
              if language.WordAt(text, from)
              then placeholder + Replace(language, placeholder, text[from + language.length..])
              else [text[from]] + Replace(language, placeholder, text[from + 1..])
  {
    var rest := text[from..];
    assert text[..from] + rest == text;
    ShiftPositions(language, text[..from], rest, 0);
    assert rest[1..] == text[from + 1..];
    assert language.WordAt(rest, 0) ==> rest[language.length..] == text[from + language.length..];
  }

  /** Without protection the pass is the whole-text replacement. */
  lemma {:induction false} SettleAll(language: Language, placeholder: string, text: string, from: nat)
    requires language.Valid() && from <= |text|
    ensures Settle(language, placeholder, text, false, from) == Replace(language, placeholder, text[from..])
    decreases |text| - from
  {
    if from < |text| {
      ReplaceHere(language, placeholder, text, from);
      SettleAll(language, placeholder, text, if language.WordAt(text, from) then from + language.length else from + 1);
    }
  }

  lemma ReplaceIsSettle(language: Language, placeholder: string, text: string)
    requires language.Valid()
    ensures Replace(language, placeholder, text) == Settle(language, placeholder, text, false, 0)
  {
    SettleAll(language, placeholder, text, 0);
    assert text[0..] == text;
  }

  // ---- What a pass settles --------------------------------------------------------------------

  /** How far the pass is settled whatever follows, up to `bound`: it stops at the first start that is not a
      word followed by something. */
  function Settled(language: Language, text: string, bound: nat, from: nat): (r: nat)
    requires 1 <= language.length && from <= |text| && bound <= |text|
    ensures from <= r <= |text|
    ensures r < bound ==> language.StartsAt(text, r) && |text| <= r + language.length
    decreases |text| - from
  {
    if from >= bound then from
    else if language.WordAt(text, from) && from + language.length < |text| then
      Settled(language, text, bound, from + language.length)
    else if language.StartsAt(text, from) then from
    else Settled(language, text, bound, from + 1)
  }

  /** The replacement of the settled part. */
  function SettledText(language: Language, placeholder: string, text: string, bound: nat, from: nat): string
    requires 1 <= language.length && from <= |text| && bound <= |text|
    decreases |text| - from
  {
    if from >= bound then ""
    else if language.WordAt(text, from) && from + language.length < |text| then
      placeholder + SettledText(language, placeholder, text, bound, from + language.length)
    else if language.StartsAt(text, from) then ""
    else [text[from]] + SettledText(language, placeholder, text, bound, from + 1)
  }

  /** A text that agrees with `text` on its settled part, and in which no word starts where none could. */
  ghost predicate Continues(language: Language, text: string, r: nat, whole: string) {
    && r <= |text| && r <= |whole| && whole[..r] == text[..r]
    && forall i: nat | i < r && !language.StartsAt(text, i) :: !language.WordAt(whole, i)
  }

  /** From `from` to `r`, the settled part of `text` is redacted the same way in `whole`. */
  ghost predicate Lands(language: Language, placeholder: string, text: string, bound: nat, from: nat, r: nat,
                        whole: string, protectTail: bool)
    requires 1 <= language.length && from <= |text| && bound <= |text|
  {
    r <= |whole| && from <= |whole| &&
    Settle(language, placeholder, whole, protectTail, from)
    == SettledText(language, placeholder, text, bound, from) + Settle(language, placeholder, whole, protectTail, r)
  }

  lemma SameWord(language: Language, text: string, r: nat, whole: string, i: nat)
    requires language.Valid() && r <= |text| && r <= |whole| && whole[..r] == text[..r]
    requires language.WordAt(text, i) && i + language.length <= r
    ensures language.WordAt(whole, i)
  {
    SliceOfSlice(whole, 0, r, i, i + language.length);
    SliceOfSlice(text, 0, r, i, i + language.length);
  }

  lemma LandsAtWord(language: Language, placeholder: string, text: string, bound: nat, from: nat, r: nat,
                    whole: string, protectTail: bool)
    requires language.Valid() && from < bound <= |text| && language.WordAt(text, from) && from + language.length < |text|
    requires from + language.length <= r && Continues(language, text, r, whole) && (protectTail ==> |whole| == |text|)
    requires Lands(language, placeholder, text, bound, from + language.length, r, whole, protectTail)
    ensures Lands(language, placeholder, text, bound, from, r, whole, protectTail)
  {
    SameWord(language, text, r, whole, from);
    Associative(placeholder, SettledText(language, placeholder, text, bound, from + language.length),
                Settle(language, placeholder, whole, protectTail, r));
  }

  lemma LandsAtOther(language: Language, placeholder: string, text: string, bound: nat, from: nat, r: nat,
                     whole: string, protectTail: bool)
    requires language.Valid() && from < bound <= |text| && !language.StartsAt(text, from)
    requires from < r && Continues(language, text, r, whole)
    requires Lands(language, placeholder, text, bound, from + 1, r, whole, protectTail)
    ensures Lands(language, placeholder, text, bound, from, r, whole, protectTail)
  {
    assert whole[..r][from] == text[..r][from];
    if language.WordAt(text, from) {
      WordStarts(language, text, from);
    }
    Associative([text[from]], SettledText(language, placeholder, text, bound, from + 1),
                Settle(language, placeholder, whole, protectTail, r));
  }

  lemma LandsAtOnce(language: Language, placeholder: string, text: string, bound: nat, from: nat,
                    whole: string, protectTail: bool)
    requires language.Valid() && from <= |text| && from <= |whole| && bound <= |text|
    requires SettledText(language, placeholder, text, bound, from) == ""
    ensures Lands(language, placeholder, text, bound, from, from, whole, protectTail)
  {
    AppendNil(Settle(language, placeholder, whole, protectTail, from));
  }

  lemma {:induction false} SettleLands(language: Language, placeholder: string, text: string, bound: nat, from: nat, r: nat,
                                       whole: string, protectTail: bool)
    requires language.Valid() && from <= |text| && bound <= |text| && r == Settled(language, text, bound, from)
    requires Continues(language, text, r, whole) && (protectTail ==> |whole| == |text|)
    ensures Lands(language, placeholder, text, bound, from, r, whole, protectTail)
    decreases |text| - from
  {
    if from >= bound {
      LandsAtOnce(language, placeholder, text, bound, from, whole, protectTail);
    } else if language.WordAt(text, from) && from + language.length < |text| {
      SettleLands(language, placeholder, text, bound, from + language.length, r, whole, protectTail);
      LandsAtWord(language, placeholder, text, bound, from, r, whole, protectTail);
    } else if language.StartsAt(text, from) {
      LandsAtOnce(language, placeholder, text, bound, from, whole, protectTail);
    } else {
      SettleLands(language, placeholder, text, bound, from + 1, r, whole, protectTail);
      LandsAtOther(language, placeholder, text, bound, from, r, whole, protectTail);
    }
  }

  /** The protected pass itself: settled text, and the rest as it is. */
  lemma ProtectedLands(language: Language, placeholder: string, text: string, bound: nat, from: nat)
    requires language.Valid() && from <= |text| && bound <= |text|
    ensures Lands(language, placeholder, text, bound, from, Settled(language, text, bound, from), text, true)
  {
    forall i: nat | i < Settled(language, text, bound, from) && !language.StartsAt(text, i)
      ensures !language.WordAt(text, i)
    {
      if language.WordAt(text, i) {
        WordStarts(language, text, i);
      }
    }
    SettleLands(language, placeholder, text, bound, from, Settled(language, text, bound, from), text, true);
  }

  /** Every word that reaches beyond `bound` touches the end. */
  ghost predicate TouchTheEnd(language: Language, text: string, bound: nat) {
    forall i: nat :: language.WordAt(text, i) && bound < i + language.length ==> i + language.length == |text|
  }

  /** If every word that reaches beyond `bound` touches the end, the settled part ends within `bound`, and the
      protected pass leaves what follows it as it is. */
  lemma {:induction false} SettledWithin(language: Language, text: string, bound: nat, from: nat)
    requires language.Valid() && from <= bound <= |text|
    requires TouchTheEnd(language, text, bound)
    ensures Settled(language, text, bound, from) <= bound
    decreases |text| - from
  {
    if from < bound {
      if language.WordAt(text, from) && from + language.length < |text| {
        SettledWithin(language, text, bound, from + language.length);
      } else if !language.StartsAt(text, from) {
        SettledWithin(language, text, bound, from + 1);
      }
    }
  }

  lemma RestStays(language: Language, placeholder: string, text: string, bound: nat, from: nat)
    requires language.Valid() && from <= bound <= |text|
    requires TouchTheEnd(language, text, bound)
    ensures var r := Settled(language, text, bound, from);
            Settle(language, placeholder, text, true, r) == text[r..]
  {
    var r := Settled(language, text, bound, from);
    SettledWithin(language, text, bound, from);
    forall i: nat | r <= i && language.WordAt(text, i)
      ensures i + language.length == |text|
    {
      assert r < bound ==> |text| <= i + language.length;
    }
    SettleNoWord(language, placeholder, text, true, r);
  }

  // ---- No start in what is settled ------------------------------------------------------------

  lemma PlaceholderThenSettled(language: Language, placeholder: string, rest: string, m: nat)
    requires language.Valid() && language.Avoids(placeholder) && NoStartBefore(language, rest, m)
    ensures NoStartBefore(language, placeholder + rest, |placeholder| + m)
  {
    assert "" + placeholder + rest == placeholder + rest;
    forall i: nat | i < |placeholder| + m
      ensures !language.StartsAt(placeholder + rest, i)
    {
      if i < |placeholder| {
        PlaceholderStartsNothing(language, "", placeholder, rest, i);
      } else {
        ShiftPositions(language, placeholder, rest, i - |placeholder|);
      }
    }
  }

  lemma CharacterThenSettled(language: Language, c: char, rest: string, m: nat)
    requires language.Valid() && NoStartBefore(language, rest, m) && !language.StartsAt([c] + rest, 0)
    ensures NoStartBefore(language, [c] + rest, 1 + m)
  {
    forall i: nat | i < 1 + m
      ensures !language.StartsAt([c] + rest, i)
    {
      if i > 0 {
        ShiftPositions(language, [c], rest, i - 1);
      }
    }
  }

  /** In `text[..r]` no word of `other` starts where none of `language` does. */
  ghost predicate Quieter(other: Language, language: Language, text: string, r: nat) {
    forall i: nat | i < r && !language.StartsAt(text, i) :: !other.StartsAt(text, i)
  }

  /** A kept character that started nothing still starts nothing once the text after it is redacted. */
  lemma CharacterStartsNothing(other: Language, language: Language, placeholder: string, text: string, from: nat)
    requires other.Valid() && other.Avoids(placeholder) && language.Valid()
    requires from < |text| && !other.StartsAt(text, from)
    ensures !other.StartsAt([text[from]] + Settle(language, placeholder, text, true, from + 1), 0)
  {
    SplitsAndJoins(text, from);
    ShiftPositions(other, text[..from], text[from..], 0);
    SettleOpensNoStart(other, language, placeholder, [text[from]], text, true, from + 1);
  }

  /** No word of `other` starts in the settled text, followed by the rest. */
  ghost predicate SettledQuiet(other: Language, language: Language, placeholder: string, text: string, bound: nat, from: nat)
    requires 1 <= language.length && from <= |text| && bound <= |text|
  {
    NoStartBefore(other, Settle(language, placeholder, text, true, from), |SettledText(language, placeholder, text, bound, from)|)
  }

  lemma QuietAtWord(other: Language, language: Language, placeholder: string, text: string, bound: nat, from: nat)
    requires other.Valid() && other.Avoids(placeholder) && language.Valid() && from < bound <= |text|
    requires language.WordAt(text, from) && from + language.length < |text|
    requires SettledQuiet(other, language, placeholder, text, bound, from + language.length)
    ensures SettledQuiet(other, language, placeholder, text, bound, from)
  {
    PlaceholderThenSettled(other, placeholder, Settle(language, placeholder, text, true, from + language.length),
                           |SettledText(language, placeholder, text, bound, from + language.length)|);
  }

  lemma QuietAtOther(other: Language, language: Language, placeholder: string, text: string, bound: nat, from: nat, r: nat)
    requires other.Valid() && other.Avoids(placeholder) && language.Valid() && from < bound <= |text|
    requires !language.StartsAt(text, from) && from < r && Quieter(other, language, text, r)
    requires SettledQuiet(other, language, placeholder, text, bound, from + 1)
    ensures SettledQuiet(other, language, placeholder, text, bound, from)
  {
    CharacterStartsNothing(other, language, placeholder, text, from);
    CharacterThenSettled(other, text[from], Settle(language, placeholder, text, true, from + 1),
                         |SettledText(language, placeholder, text, bound, from + 1)|);
    if language.WordAt(text, from) {
      WordStarts(language, text, from);
    }
  }

  /** In the settled text, followed by the rest, no word of `other` starts or could start, if none does in the
      kept characters of the original. */
  lemma {:induction false} SettledStartsNothing(other: Language, language: Language, placeholder: string, text: string,
                                                bound: nat, from: nat, r: nat)
    requires other.Valid() && other.Avoids(placeholder) && language.Valid() && from <= |text| && bound <= |text|
    requires r == Settled(language, text, bound, from) && Quieter(other, language, text, r)
    ensures SettledQuiet(other, language, placeholder, text, bound, from)
    decreases |text| - from
  {
    if from >= bound {
    } else if language.WordAt(text, from) && from + language.length < |text| {
      SettledStartsNothing(other, language, placeholder, text, bound, from + language.length, r);
      QuietAtWord(other, language, placeholder, text, bound, from);
    } else if !language.StartsAt(text, from) {
      SettledStartsNothing(other, language, placeholder, text, bound, from + 1, r);
      QuietAtOther(other, language, placeholder, text, bound, from, r);
    }
  }

  /** Replacing in what follows turns no position of `x` into a start. */
  lemma ReplaceOpensNoStart(other: Language, language: Language, placeholder: string, x: string, text: string)
    requires other.Valid() && other.Avoids(placeholder) && language.Valid() && |x| > 0
    requires !other.StartsAt(x + text, 0)
    ensures !other.StartsAt(x + Replace(language, placeholder, text), 0)
  {
    assert text[0..] == text;
    SettleOpensNoStart(other, language, placeholder, x, text, false, 0);
    ReplaceIsSettle(language, placeholder, text);
  }

  /** A prefix in which no word starts is kept. */
  lemma {:induction false} PrefixKept(language: Language, placeholder: string, x: string, text: string)
    requires language.Valid() && forall i: nat | i < |x| :: !language.WordAt(x + text, i)
    ensures Replace(language, placeholder, x + text) == x + Replace(language, placeholder, text)
    decreases |x|
  {
    if |x| == 0 {
      AppendNil(text);
      AppendNil(Replace(language, placeholder, text));
    } else {
      var rest := x[1..];
      assert x + text == [x[0]] + (rest + text);
      forall i: nat | i < |rest|
        ensures !language.WordAt(rest + text, i)
      {
        ShiftPositions(language, [x[0]], rest + text, i);
      }
      PrefixKept(language, placeholder, rest, text);
      assert (x + text)[1..] == rest + text;
      Prepend([x[0]], Replace(language, placeholder, rest + text), rest, Replace(language, placeholder, text));
    }
  }
}

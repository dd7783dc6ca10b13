/** The provenance of a redacted text: which input characters survive, which a placeholder replaces,
    which are dropped. */
module Pieces {
  import opened Basics

  /** `Hidden(source)` is shown as one placeholder; `Dropped(c)` is not shown at all. */
  datatype Piece = Kept(c: char) | Hidden(source: string) | Dropped(c: char)

  function SourceOf(p: Piece): string {
    if p.Hidden? then p.source else [p.c]
  }

  function ShownOf(p: Piece, placeholder: string): string {
    match p
    case Kept(c) => [c]
    case Hidden(_) => placeholder
    case Dropped(_) => ""
  }

  /** The input the pieces account for. */
  function Source(ps: seq<Piece>): string {
    if |ps| == 0 then "" else SourceOf(ps[0]) + Source(ps[1..])
  }

  /** The output the pieces produce. */
  function Shown(ps: seq<Piece>, placeholder: string): string {
    if |ps| == 0 then "" else ShownOf(ps[0], placeholder) + Shown(ps[1..], placeholder)
  }

  function KeepAll(text: string): (ps: seq<Piece>)
    ensures |ps| == |text|
  {
    if |text| == 0 then [] else [Kept(text[0])] + KeepAll(text[1..])
  }

  function DropAll(text: string): (ps: seq<Piece>)
    ensures |ps| == |text|
  {
    if |text| == 0 then [] else [Dropped(text[0])] + DropAll(text[1..])
  }

  lemma KeepAllText(text: string, placeholder: string)
    ensures Source(KeepAll(text)) == text && Shown(KeepAll(text), placeholder) == text
  {
    if text != "" {
      KeepAllText(text[1..], placeholder);
      assert KeepAll(text)[1..] == KeepAll(text[1..]);
    }
  }

  lemma DropAllText(text: string, placeholder: string)
    ensures Source(DropAll(text)) == text && Shown(DropAll(text), placeholder) == ""
  {
    if text != "" {
      DropAllText(text[1..], placeholder);
      assert DropAll(text)[1..] == DropAll(text[1..]);
    }
  }

  lemma {:induction false} SourceAppend(a: seq<Piece>, b: seq<Piece>)
    ensures Source(a + b) == Source(a) + Source(b)
  {
    if |a| == 0 {
      AppendNil(b);
      AppendNil(Source(b));
    } else {
      SourceAppend(a[1..], b);
      AppendUncons(a, b);
      Associative(SourceOf(a[0]), Source(a[1..]), Source(b));
    }
  }

  lemma {:induction false} ShownAppend(a: seq<Piece>, b: seq<Piece>, placeholder: string)
    ensures Shown(a + b, placeholder) == Shown(a, placeholder) + Shown(b, placeholder)
  {
    if |a| == 0 {
      AppendNil(b);
      AppendNil(Shown(b, placeholder));
    } else {
      ShownAppend(a[1..], b, placeholder);
      AppendUncons(a, b);
      Associative(ShownOf(a[0], placeholder), Shown(a[1..], placeholder), Shown(b, placeholder));
    }
  }

  lemma Single(p: Piece, placeholder: string)
    ensures Source([p]) == SourceOf(p) && Shown([p], placeholder) == ShownOf(p, placeholder)
  {
    assert [p][1..] == [];
  }

  /** A text kept up to a span, the span hidden, and what follows. */
  function Replaced(before: string, span: string, rest: seq<Piece>): seq<Piece> {
    KeepAll(before) + [Hidden(span)] + rest
  }

  lemma ReplacedShows(before: string, span: string, rest: seq<Piece>, placeholder: string)
    ensures Shown(Replaced(before, span, rest), placeholder) == before + placeholder + Shown(rest, placeholder)
  {
    KeepAllText(before, placeholder);
    Single(Hidden(span), placeholder);
    ShownAppend(KeepAll(before), [Hidden(span)], placeholder);
    ShownAppend(KeepAll(before) + [Hidden(span)], rest, placeholder);
  }

  lemma ReplacedAccounts(before: string, span: string, rest: seq<Piece>)
    ensures Source(Replaced(before, span, rest)) == before + span + Source(rest)
  {
    KeepAllText(before, "");
    Single(Hidden(span), "");
    SourceAppend(KeepAll(before), [Hidden(span)]);
    SourceAppend(KeepAll(before) + [Hidden(span)], rest);
  }

  lemma {:induction false} KeepAllKept(text: string)
    ensures forall p | p in KeepAll(text) :: p.Kept?
  {
    if |text| > 0 {
      KeepAllKept(text[1..]);
    }
  }

  lemma ReplacedPieces(before: string, span: string, rest: seq<Piece>)
    ensures |Replaced(before, span, rest)| > |rest|
    ensures rest != [] ==> Replaced(before, span, rest)[|Replaced(before, span, rest)| - 1] == rest[|rest| - 1]
    ensures forall p | p in Replaced(before, span, rest) :: p.Kept? || p.Hidden? || p in rest
  {
    KeepAllKept(before);
  }

  // ---- A text cut at spans --------------------------------------------------------------------

  /** Spans of a text to be replaced, left to right. */
  datatype Spans = NoMore | More(start: nat, end: nat, rest: Spans)

  /** The spans follow `position` and each other, and none goes beyond `n`. */
  predicate Fits(spans: Spans, position: nat, n: nat) {
    match spans
    case NoMore => true
    case More(start, end, rest) => position <= start <= end <= n && Fits(rest, end, n)
  }

  /** The pieces of the text from `position` on. */
  function Cut(text: string, position: nat, spans: Spans): seq<Piece>
    requires position <= |text| && Fits(spans, position, |text|)
    decreases spans
  {
    match spans
    case NoMore => KeepAll(text[position..])
    case More(start, end, rest) => Replaced(text[position..start], text[start..end], Cut(text, end, rest))
  }

  /** The text they show. */
  function CutText(placeholder: string, text: string, position: nat, spans: Spans): string
    requires position <= |text| && Fits(spans, position, |text|)
    decreases spans
  {
    match spans
    case NoMore => text[position..]
    case More(start, end, rest) => text[position..start] + placeholder + CutText(placeholder, text, end, rest)
  }

  lemma {:induction false} CutShows(placeholder: string, text: string, position: nat, spans: Spans)
    requires position <= |text| && Fits(spans, position, |text|)
    ensures Shown(Cut(text, position, spans), placeholder) == CutText(placeholder, text, position, spans)
    decreases spans
  {
    match spans
    case NoMore => KeepAllText(text[position..], placeholder);
    case More(start, end, rest) =>
      CutShows(placeholder, text, end, rest);
      ReplacedShows(text[position..start], text[start..end], Cut(text, end, rest), placeholder);
  }

  lemma {:induction false} CutAccounts(text: string, position: nat, spans: Spans)
    requires position <= |text| && Fits(spans, position, |text|)
    ensures Source(Cut(text, position, spans)) == text[position..]
    decreases spans
  {
    match spans
    case NoMore => KeepAllText(text[position..], "");
    case More(start, end, rest) =>
      CutAccounts(text, end, rest);
      ReplacedAccounts(text[position..start], text[start..end], Cut(text, end, rest));
      SlicesJoin(text, position, start, end);
  }

  lemma {:induction false} CutDropsNothing(text: string, position: nat, spans: Spans)
    requires position <= |text| && Fits(spans, position, |text|)
    ensures forall p | p in Cut(text, position, spans) :: !p.Dropped?
    decreases spans
  {
    match spans
    case NoMore => KeepAllKept(text[position..]);
    case More(start, end, rest) =>
      CutDropsNothing(text, end, rest);
      ReplacedPieces(text[position..start], text[start..end], Cut(text, end, rest));
  }

  /** Spans that stop short of the end leave the last character in place. */
  lemma {:induction false} CutKeepsTail(text: string, position: nat, spans: Spans)
    requires position < |text| && Fits(spans, position, |text| - 1) && Fits(spans, position, |text|)
    ensures var ps := Cut(text, position, spans); ps != [] && ps[|ps| - 1].Kept?
    decreases spans
  {
    match spans
    case NoMore => KeepAllKept(text[position..]);
    case More(start, end, rest) =>
      CutKeepsTail(text, end, rest);
      ReplacedPieces(text[position..start], text[start..end], Cut(text, end, rest));
  }
}

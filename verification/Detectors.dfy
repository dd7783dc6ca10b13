/** Detectors: what a compiled pattern may report about a text, and fixed-length languages. */
module Detectors {
  import opened Basics

  datatype Span = Span(start: nat, end: nat)

  /** One item of a partial-matching scan: a full match, or a match that ran out of input. */
  datatype Hit = Hit(start: nat, end: nat, partial: bool)

  /** A detector seen through the three questions the redactor asks its expression.
      `search(text, from)` is the leftmost match at or after `from`; `matchAt(text, start, end)`
      is the end of the greedy match at `start` when the text is cut at `end`; `scan(text)` is the
      left-to-right list of matches, with partial matches reported. */
  datatype Pattern = Pattern(
    name: string,
    maxLength: nat,
    validate: Option<string -> bool>,
    validateMinLength: nat,
    search: (string, nat) -> Option<Span>,
    matchAt: (string, nat, nat) -> Option<nat>,
    scan: string -> seq<Hit>)
  {
    /** What any regular expression engine guarantees about the positions it reports. */
    ghost predicate WellFormed() {
      && (forall text, from: nat | from <= |text| ::
            search(text, from).Some? ==>
              from <= search(text, from).value.start <= search(text, from).value.end <= |text|)
      && (forall text, start: nat, end: nat | start <= end <= |text| ::
            matchAt(text, start, end).Some? ==> start <= matchAt(text, start, end).value <= end)
      && (forall text, i: nat | i < |scan(text)| ::
            scan(text)[i].start <= scan(text)[i].end <= |text|)
    }

    predicate Accepts(text: string) {
      validate.None? || validate.value(text)
    }

    /** Where the match of `text[start..end]` may end once the validator has had its say. */
    function ValidatedEnd(text: string, start: nat, end: nat): (r: Option<nat>)
      requires WellFormed() && start <= end <= |text|
      ensures r.Some? ==> start <= r.value <= end && Accepts(text[start..r.value])
    {
      if validate.None? then Some(end) else BackOff(text, start, end)
    }

    /** Retry at ever shorter ends, each the greedy match below the last one rejected. */
    function BackOff(text: string, start: nat, end: int): (r: Option<nat>)
      requires WellFormed() && start <= |text| && end <= |text|
      ensures r.Some? ==> start <= r.value <= end && Accepts(text[start..r.value])
      decreases end - start + 1
    {
      if end < start + Max(validateMinLength, 1) then None
      else
        match matchAt(text, start, end)
        case None => None
        case Some(e) =>
          if Accepts(text[start..e]) then Some(e) else BackOff(text, start, e - 1)
    }
  }

  /** A language of words of one length, decided without looking at the text around them.
      `viable(s)` says that `s` is the beginning of some word. */
  datatype Language = Language(length: nat, viable: string -> bool) {
    ghost predicate Valid() {
      && 1 <= length
      && (forall s :: viable(s) ==> |s| <= length)
      && (forall s, k: nat | k <= |s| :: viable(s) ==> viable(s[..k]))
    }

    /** A word stands at position `i`. */
    predicate WordAt(text: string, i: nat) {
      i + length <= |text| && viable(text[i..i + length])
    }

    /** A word stands at position `i`, or might once more text has arrived. */
    predicate StartsAt(text: string, i: nat) {
      i < |text| && viable(text[i..Min(i + length, |text|)])
    }

    /** No character of any word belongs to `placeholder`. */
    ghost predicate Avoids(placeholder: string) {
      && placeholder != ""
      && (forall s, i: nat | i < |s| :: viable(s) ==> s[i] !in placeholder)
    }

    function FirstWord(text: string, from: nat): (r: Option<Span>)
      requires 1 <= length
      ensures r.Some? ==> from <= r.value.start && r.value.end == r.value.start + length <= |text|
      ensures r.Some? ==> WordAt(text, r.value.start)
      ensures forall i | from <= i && (r.Some? ==> i < r.value.start) :: !WordAt(text, i)
      decreases |text| - from
    {
      if from + length > |text| then None
      else if WordAt(text, from) then Some(Span(from, from + length))
      else FirstWord(text, from + 1)
    }

    /** Non-overlapping words from left to right, then the first suffix that a word could still grow from. */
    function Scan(text: string, from: nat): (hits: seq<Hit>)
      requires 1 <= length && from <= |text|
      ensures forall i | 0 <= i < |hits| :: from <= hits[i].start <= hits[i].end <= |text|
      decreases |text| - from
    {
      if from == |text| then [Hit(from, from, true)]
      else if WordAt(text, from) then [Hit(from, from + length, false)] + Scan(text, from + length)
      else if StartsAt(text, from) then [Hit(from, |text|, true)]
      else Scan(text, from + 1)
    }
  }

  /** `p` has no validator and finds exactly the words of `language`. */
  ghost predicate Finds(p: Pattern, language: Language)
    requires 1 <= language.length
  {
    && p.validate.None?
    && (forall text, from: nat | from <= |text| :: p.search(text, from) == language.FirstWord(text, from))
  }

  /** `p` finds the words of `language`, and its partial matches are exactly what can still become a word. */
  ghost predicate Recognises(p: Pattern, language: Language)
    requires 1 <= language.length
  {
    && Finds(p, language)
    && (forall text :: p.scan(text) == language.Scan(text, 0))
  }

  /** The detector of a language. */
  function LanguagePattern(name: string, language: Language): (p: Pattern)
    requires language.Valid()
    ensures p.WellFormed() && Recognises(p, language) && p.maxLength == language.length
  {
    Pattern(name, language.length, None, 0,
      (text: string, from: nat) => language.FirstWord(text, from),
      (text: string, start: nat, end: nat) =>
        if start + language.length <= end <= |text| && language.WordAt(text, start)
        then Some(start + language.length) else None,
      (text: string) => language.Scan(text, 0))
  }
}

/** Card numbers: thirteen to nineteen digits, optionally grouped by single separators. When the greedy
    match fails the Luhn check, the back-off finds the longest shorter end that passes it. */
module CardSearch {
  import opened Basics
  import opened Detectors
  import opened Luhn

  predicate IsSeparator(c: char) {
    c == ' ' || c == '-'
  }

  /** Digits with at most one separator between two of them, and none at either end. */
  predicate Grouped(num: Numerals, s: string) {
    && |s| > 0 && num.digit(s[0]) && num.digit(s[|s| - 1])
    && (forall i | 0 <= i < |s| :: num.digit(s[i]) || IsSeparator(s[i]))
    && (forall i | 0 <= i < |s| - 1 :: num.digit(s[i]) || num.digit(s[i + 1]))
  }

  predicate CardShaped(num: Numerals, s: string)
    requires num.Valid()
  {
    Grouped(num, s) && 13 <= |Digits(num, s)| <= 19
  }

  /** The repetition of the expression, read from the left: `n` times a digit and perhaps a separator, and then one
      more digit. */
  predicate Repeats(num: Numerals, s: string, n: nat) {
    if n == 0 then |s| == 1 && num.digit(s[0])
    else
      && |s| > 1 && num.digit(s[0])
      && (Repeats(num, s[1..], n - 1) || (s[1] in {' ', '-'} && Repeats(num, s[2..], n - 1)))
  }

  lemma DigitsUncons(num: Numerals, s: string)
    requires num.Valid() && |s| > 0
    ensures |Digits(num, s)| == |Digits(num, s[1..])| + if num.digit(s[0]) then 1 else 0
  {
  }

  lemma {:induction false} RepeatsIsGrouped(num: Numerals, s: string, n: nat)
    requires num.Valid() && Repeats(num, s, n)
    ensures Grouped(num, s) && |Digits(num, s)| == n + 1
    decreases n
  {
    DigitsUncons(num, s);
    if n == 0 {
      assert s[1..] == "";
    } else if Repeats(num, s[1..], n - 1) {
      RepeatsIsGrouped(num, s[1..], n - 1);
      GroupedStep(num, s, 1);
    } else {
      RepeatsIsGrouped(num, s[2..], n - 1);
      DigitsUncons(num, s[1..]);
      assert s[1..][1..] == s[2..];
      GroupedStep(num, s, 2);
    }
  }

  lemma GroupedStep(num: Numerals, s: string, k: nat)
    requires 1 <= k <= 2 <= |s| && k < |s| && num.digit(s[0]) && Grouped(num, s[k..]) && (k == 2 ==> IsSeparator(s[1]))
    ensures Grouped(num, s)
  {
    var rest := s[k..];
    assert forall i | k <= i < |s| :: s[i] == rest[i - k];
  }

  lemma {:induction false} GroupedRepeats(num: Numerals, s: string, n: nat)
    requires num.Valid() && Grouped(num, s) && |Digits(num, s)| == n + 1
    ensures Repeats(num, s, n)
    decreases n
  {
    DigitsUncons(num, s);
    if |s| == 1 {
      assert s[1..] == "";
    } else if num.digit(s[1]) {
      DigitsUncons(num, s[1..]);
      GroupedRest(num, s, 1);
      GroupedRepeats(num, s[1..], n - 1);
    } else {
      DigitsUncons(num, s[1..]);
      assert s[1..][1..] == s[2..];
      GroupedRest(num, s, 2);
      DigitsUncons(num, s[2..]);
      GroupedRepeats(num, s[2..], n - 1);
    }
  }

  lemma GroupedRest(num: Numerals, s: string, k: nat)
    requires Grouped(num, s) && |s| > 1 && k == (if num.digit(s[1]) then 1 else 2)
    ensures k < |s| && Grouped(num, s[k..])
  {
    assert k == 2 ==> num.digit(s[1]) || |s| > 2;
    assert num.digit(s[k]);
    var rest := s[k..];
    assert forall i | 0 <= i < |rest| :: rest[i] == s[i + k];
  }

  predicate Matches(num: Numerals, s: string, n: nat) {
    12 <= n <= 18 && Repeats(num, s, n)
  }

  /** The shape is that of the expression, with twelve to eighteen repetitions. */
  lemma ShapeIsExpression(num: Numerals, s: string)
    requires num.Valid()
    ensures CardShaped(num, s) <==> exists n :: Matches(num, s, n)
  {
    if CardShaped(num, s) {
      var n := |Digits(num, s)| - 1;
      GroupedRepeats(num, s, n);
      assert Matches(num, s, n);
    }
    if n :| Matches(num, s, n) {
      RepeatsIsGrouped(num, s, n);
    }
  }

  /** An end at which the expression can stop when the text is cut at `limit`: no digit may follow. */
  predicate MatchEnd(num: Numerals, text: string, start: nat, limit: nat, e: nat)
    requires num.Valid()
  {
    && start <= e <= limit <= |text|
    && CardShaped(num, text[start..e])
    && (e < limit ==> !num.digit(text[e]))
  }

  /** The greedy match at `start` within `limit`: the longest end, found from the right. */
  function LongestEnd(num: Numerals, text: string, start: nat, limit: nat, e: nat): (r: Option<nat>)
    requires num.Valid() && start <= e <= limit <= |text|
    ensures r.Some? ==> r.value <= e && MatchEnd(num, text, start, limit, r.value)
    ensures forall x | start <= x <= e && (r.Some? ==> r.value < x) :: !MatchEnd(num, text, start, limit, x)
    decreases e
  {
    if MatchEnd(num, text, start, limit, e) then Some(e)
    else if e == start then None
    else LongestEnd(num, text, start, limit, e - 1)
  }

  /** The expression anchored at `start` in a text cut at `limit`; a digit right before `start` rules it out. */
  function GreedyMatch(num: Numerals, text: string, start: nat, limit: nat): (r: Option<nat>)
    requires num.Valid()
    ensures r.Some? ==> start <= r.value <= limit
  {
    if !(start <= limit <= |text|) || (start > 0 && num.digit(text[start - 1])) then None
    else LongestEnd(num, text, start, limit, limit)
  }

  /** The card detector: greedy matches, the Luhn validator, and a floor of thirteen characters. */
  ghost predicate IsCardPattern(p: Pattern, num: Numerals)
    requires num.Valid()
  {
    && p.validate.Some? && (forall s :: p.validate.value(s) == Valid(Digits(num, s)))
    && p.validateMinLength == 13
    && (forall text, start: nat, limit: nat :: p.matchAt(text, start, limit) == GreedyMatch(num, text, start, limit))
  }

  /** A card that passes the check and ends at `e`. */
  predicate CardEndsAt(num: Numerals, text: string, start: nat, e: nat)
    requires num.Valid() && start <= e <= |text|
  {
    CardShaped(num, text[start..e]) && Valid(Digits(num, text[start..e]))
  }

  lemma {:induction false} DigitsAreFewer(num: Numerals, s: string, k: nat)
    requires num.Valid() && k <= |s|
    ensures |Digits(num, s[..k])| <= |Digits(num, s)|
  {
    DigitsAppend(num, s[..k], s[k..]);
    SplitsAndJoins(s, k);
  }

  /** A card shape followed by a digit is a card shape, as long as there are not too many digits. */
  lemma OneMoreDigit(num: Numerals, text: string, start: nat, e: nat, limit: nat)
    requires num.Valid() && start <= e < limit <= |text|
    requires CardShaped(num, text[start..e]) && num.digit(text[e])
    requires |Digits(num, text[start..limit])| <= 19
    ensures CardShaped(num, text[start..e + 1])
  {
    var s, c := text[start..e], text[e];
    var longer := text[start..e + 1];
    assert longer == s + [c];
    DigitsAppend(num, s, [c]);
    assert |[c][1..]| == 0;
    assert Digits(num, [c]) == [num.value(c)];
    DigitsAreFewer(num, text[start..limit], e + 1 - start);
    assert text[start..limit][..e + 1 - start] == longer;
    forall i | 0 <= i < |longer| - 1
      ensures num.digit(longer[i]) || num.digit(longer[i + 1])
    {
      if i < |s| - 1 {
        assert longer[i] == s[i] && longer[i + 1] == s[i + 1];
      }
    }
  }

  /** Between the greedy match and the limit there is no card shape: the jump skips nothing. */
  lemma {:induction false} JumpSkipsNothing(num: Numerals, text: string, start: nat, limit: nat, e: nat)
    requires num.Valid() && start <= e <= limit <= |text|
    requires |Digits(num, text[start..limit])| <= 19
    requires CardShaped(num, text[start..e])
    ensures exists x :: e <= x <= limit && MatchEnd(num, text, start, limit, x)
    decreases limit - e
  {
    if e < limit && num.digit(text[e]) {
      OneMoreDigit(num, text, start, e, limit);
      JumpSkipsNothing(num, text, start, limit, e + 1);
    } else {
      assert MatchEnd(num, text, start, limit, e);
    }
  }

  /** `r` is the last end, up to `limit`, at which a card passes the check. */
  ghost predicate LastCardEnd(num: Numerals, text: string, start: nat, limit: int, r: Option<nat>)
    requires num.Valid() && limit <= |text|
  {
    && (r.Some? ==> start <= r.value <= limit && CardEndsAt(num, text, start, r.value))
    && (forall e: nat | start <= e <= limit && (r.Some? ==> r.value < e) :: !CardEndsAt(num, text, start, e))
  }

  lemma NoCardAboveMatch(num: Numerals, text: string, start: nat, limit: nat, e: nat)
    requires num.Valid() && start <= e <= limit <= |text| && !(start > 0 && num.digit(text[start - 1]))
    requires |Digits(num, text[start..limit])| <= 19
    requires var candidate := GreedyMatch(num, text, start, limit); candidate.Some? ==> candidate.value < e
    ensures !CardEndsAt(num, text, start, e)
  {
    if CardShaped(num, text[start..e]) {
      JumpSkipsNothing(num, text, start, limit, e);
    }
  }

  lemma NoCardBelowFloor(num: Numerals, text: string, start: nat, limit: int)
    requires num.Valid() && start <= |text| && limit <= |text| && limit < start + 13
    ensures LastCardEnd(num, text, start, limit, CardBackOff(num, text, start, limit))
  {
  }

  lemma DigitsWithin(num: Numerals, text: string, start: nat, e: nat, limit: nat)
    requires num.Valid() && start <= e <= limit <= |text|
    ensures |Digits(num, text[start..e])| <= |Digits(num, text[start..limit])|
  {
    DigitsAreFewer(num, text[start..limit], e - start);
    assert text[start..limit][..e - start] == text[start..e];
  }

  lemma NoCardAfterMatch(num: Numerals, text: string, start: nat, limit: nat)
    requires num.Valid() && start <= limit <= |text| && !(start > 0 && num.digit(text[start - 1]))
    requires |Digits(num, text[start..limit])| <= 19
    ensures var candidate := GreedyMatch(num, text, start, limit);
            NoCardIn(num, text, start, if candidate.Some? then candidate.value else -1, limit)
  {
    var candidate := GreedyMatch(num, text, start, limit);
    forall e: nat | start <= e <= limit && (candidate.Some? ==> candidate.value < e)
      ensures !CardEndsAt(num, text, start, e)
    {
      NoCardAboveMatch(num, text, start, limit, e);
    }
  }

  /** No card ends in `(e, limit]`. */
  ghost predicate NoCardIn(num: Numerals, text: string, start: nat, e: int, limit: int)
    requires num.Valid() && limit <= |text|
  {
    forall x: nat | start <= x <= limit && e < x :: !CardEndsAt(num, text, start, x)
  }

  lemma Rejected(num: Numerals, text: string, start: nat, limit: int, e: nat, r: Option<nat>)
    requires num.Valid() && start <= e <= limit <= |text| && NoCardIn(num, text, start, e, limit)
    requires !CardEndsAt(num, text, start, e) && LastCardEnd(num, text, start, e - 1, r)
    ensures LastCardEnd(num, text, start, limit, r)
  {
  }

  lemma NoneOrFound(num: Numerals, text: string, start: nat, limit: int, r: Option<nat>)
    requires num.Valid() && limit <= |text|
    requires r.Some? ==> start <= r.value <= limit && CardEndsAt(num, text, start, r.value)
    requires NoCardIn(num, text, start, if r.Some? then r.value else -1, limit)
    ensures LastCardEnd(num, text, start, limit, r)
  {
  }

  /** The back-off, with the card expression and the Luhn check written out. */
  function CardBackOff(num: Numerals, text: string, start: nat, limit: int): Option<nat>
    requires num.Valid() && start <= |text| && limit <= |text|
    decreases limit - start + 1
  {
    if limit < start + 13 then None
    else
      match GreedyMatch(num, text, start, limit)
      case None => None
      case Some(e) => if Valid(Digits(num, text[start..e])) then Some(e) else CardBackOff(num, text, start, e - 1)
  }

  lemma BackOffStep(p: Pattern, num: Numerals, text: string, start: nat, limit: int)
    requires num.Valid() && p.WellFormed() && IsCardPattern(p, num)
    requires start <= |text| && limit <= |text|
    ensures p.BackOff(text, start, limit) ==
              if limit < start + 13 then None
              else
                match GreedyMatch(num, text, start, limit)
                case None => None
                case Some(e) => if Valid(Digits(num, text[start..e])) then Some(e) else p.BackOff(text, start, e - 1)
  {
    if limit >= start + 13 {
      assert p.matchAt(text, start, limit) == GreedyMatch(num, text, start, limit);
    }
  }

  lemma {:induction false} BackOffIsCardBackOff(p: Pattern, num: Numerals, text: string, start: nat, limit: int)
    requires num.Valid() && p.WellFormed() && IsCardPattern(p, num)
    requires start <= |text| && limit <= |text|
    ensures p.BackOff(text, start, limit) == CardBackOff(num, text, start, limit)
    decreases limit - start + 1
  {
    BackOffStep(p, num, text, start, limit);
    if limit >= start + 13 && GreedyMatch(num, text, start, limit).Some? {
      BackOffIsCardBackOff(p, num, text, start, GreedyMatch(num, text, start, limit).value - 1);
    }
  }

  /** No digit stands before `start`, and not more than a card's digits up to `limit`. */
  predicate Searchable(num: Numerals, text: string, start: nat, limit: int)
    requires num.Valid()
  {
    && start <= |text| && limit <= |text| && !(start > 0 && num.digit(text[start - 1]))
    && (start <= limit ==> |Digits(num, text[start..limit])| <= 19)
  }

  lemma SearchableBelow(num: Numerals, text: string, start: nat, e: int, limit: nat)
    requires num.Valid() && start <= limit && e <= limit && Searchable(num, text, start, limit)
    ensures Searchable(num, text, start, e)
  {
    if start <= e {
      DigitsWithin(num, text, start, e, limit);
    }
  }

  /** A match that passes the check is the last card. */
  lemma MatchIsLast(num: Numerals, text: string, start: nat, limit: nat, r: Option<nat>)
    requires num.Valid() && start <= limit <= |text| && !(start > 0 && num.digit(text[start - 1]))
    requires |Digits(num, text[start..limit])| <= 19
    requires r == GreedyMatch(num, text, start, limit) && (r.Some? ==> Valid(Digits(num, text[start..r.value])))
    ensures LastCardEnd(num, text, start, limit, r)
  {
    NoCardAfterMatch(num, text, start, limit);
    NoneOrFound(num, text, start, limit, r);
  }

  /** A match that fails the check leaves the last card to the shorter ends. */
  lemma MatchFails(num: Numerals, text: string, start: nat, limit: nat, e: nat, r: Option<nat>)
    requires num.Valid() && start <= limit <= |text| && !(start > 0 && num.digit(text[start - 1]))
    requires |Digits(num, text[start..limit])| <= 19
    requires GreedyMatch(num, text, start, limit) == Some(e) && !Valid(Digits(num, text[start..e]))
    requires LastCardEnd(num, text, start, e - 1, r)
    ensures LastCardEnd(num, text, start, limit, r)
  {
    NoCardAfterMatch(num, text, start, limit);
    Rejected(num, text, start, limit, e, r);
  }

  /** The greedy match, if the validator rejects it. */
  function RejectedMatch(num: Numerals, text: string, start: nat, limit: nat): (r: Option<nat>)
    requires num.Valid() && start <= limit <= |text|
    ensures r.Some? ==> start <= r.value <= limit && r == GreedyMatch(num, text, start, limit)
  {
    var found := GreedyMatch(num, text, start, limit);
    if found.Some? && !Valid(Digits(num, text[start..found.value])) then found else None
  }

  lemma AcceptedIsLast(num: Numerals, text: string, start: nat, limit: nat)
    requires num.Valid() && start + 13 <= limit && Searchable(num, text, start, limit) && RejectedMatch(num, text, start, limit).None?
    ensures LastCardEnd(num, text, start, limit, CardBackOff(num, text, start, limit))
  {
    MatchIsLast(num, text, start, limit, GreedyMatch(num, text, start, limit));
  }

  lemma RetryIsLast(num: Numerals, text: string, start: nat, limit: nat, e: nat)
    requires num.Valid() && start + 13 <= limit && Searchable(num, text, start, limit)
    requires RejectedMatch(num, text, start, limit) == Some(e)
    requires LastCardEnd(num, text, start, e - 1, CardBackOff(num, text, start, e - 1))
    ensures LastCardEnd(num, text, start, limit, CardBackOff(num, text, start, limit))
  {
    MatchFails(num, text, start, limit, e, CardBackOff(num, text, start, e - 1));
    BackOffRetries(num, text, start, limit, e);
  }

  lemma BackOffRetries(num: Numerals, text: string, start: nat, limit: nat, e: nat)
    requires num.Valid() && start + 13 <= limit <= |text| && RejectedMatch(num, text, start, limit) == Some(e)
    ensures CardBackOff(num, text, start, limit) == CardBackOff(num, text, start, e - 1)
  {
  }

  lemma {:induction false} CardBackOffIsExact(num: Numerals, text: string, start: nat, limit: int)
    requires num.Valid() && Searchable(num, text, start, limit)
    ensures LastCardEnd(num, text, start, limit, CardBackOff(num, text, start, limit))
    decreases limit - start + 1
  {
    if limit < start + 13 {
      NoCardBelowFloor(num, text, start, limit);
    } else if RejectedMatch(num, text, start, limit).None? {
      AcceptedIsLast(num, text, start, limit);
    } else {
      var e := RejectedMatch(num, text, start, limit).value;
      SearchableBelow(num, text, start, e - 1, limit);
      CardBackOffIsExact(num, text, start, e - 1);
      RetryIsLast(num, text, start, limit, e);
    }
  }

  /** Main result: given a full match at `start`, the back-off returns the longest end within it at which a
      card passes the check, and nothing only if there is none. */
  lemma ValidatedEndIsExact(p: Pattern, num: Numerals, text: string, start: nat, end: nat)
    requires num.Valid() && p.WellFormed() && IsCardPattern(p, num)
    requires start <= end <= |text| && GreedyMatch(num, text, start, |text|) == Some(end)
    ensures LastCardEnd(num, text, start, end, p.ValidatedEnd(text, start, end))
  {
    BackOffIsCardBackOff(p, num, text, start, end);
    CardBackOffIsExact(num, text, start, end);
  }

  /** The leftmost start, at or after `from`, with a match in the whole text. */
  function Search(num: Numerals, text: string, from: nat): (r: Option<Span>)
    requires num.Valid()
    ensures r.Some? ==> from <= r.value.start <= r.value.end <= |text|
    ensures r.Some? ==> GreedyMatch(num, text, r.value.start, |text|) == Some(r.value.end)
    decreases |text| - from
  {
    if from >= |text| then None
    else
      match GreedyMatch(num, text, from, |text|)
      case Some(end) => Some(Span(from, end))
      case None => Search(num, text, from + 1)
  }

  /** The detector itself, for any partial-match scan that reports positions of the text. */
  function CardPattern(num: Numerals, scan: string -> seq<Hit>): (p: Pattern)
    requires num.Valid()
    requires forall text, i: nat | i < |scan(text)| :: scan(text)[i].start <= scan(text)[i].end <= |text|
    ensures p.WellFormed() && IsCardPattern(p, num)
    ensures forall text, from: nat :: p.search(text, from) == Search(num, text, from)
  {
    Pattern("credit_card", 37,
      Some((s: string) => Valid(Digits(num, s))),
      13,
      (text: string, from: nat) => Search(num, text, from),
      (text: string, start: nat, limit: nat) => GreedyMatch(num, text, start, limit),
      scan)
  }
}

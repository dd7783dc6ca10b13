/** Several fixed-length detectors, one after the other: when no later one can cut into a word of an earlier
    one that is still incomplete, a stream gives the successive replacement of the whole text for every cut. */
module ManyDetectors {
  import opened Basics
  import opened Detectors
  import opened Pieces
  import opened Redaction
  import opened RedactorSafety
  import opened Replacing

  // ---- The condition --------------------------------------------------------------------------

  ghost predicate Completes(language: Language, s: string, word: string) {
    s <= word && |word| == language.length && language.viable(word)
  }

  ghost predicate CanBegin(language: Language, s: string) {
    language.viable(s)
  }

  /** Every viable string is the beginning of a word. */
  ghost predicate Tight(language: Language) {
    forall s :: CanBegin(language, s) ==> exists word :: Completes(language, s, word)
  }

  /** A word of `later` at `i` contains no word of `earlier`, overlaps one at `j`, and ends strictly before it. */
  ghost predicate CutsInto(earlier: Language, later: Language, text: string, i: nat, j: nat) {
    && later.WordAt(text, i) && earlier.WordAt(text, j)
    && j < i + later.length < j + earlier.length
    && forall k: nat | i <= k && k + earlier.length <= i + later.length :: !earlier.WordAt(text, k)
  }

  ghost predicate Compatible(earlier: Language, later: Language) {
    forall text: string, i: nat, j: nat :: !CutsInto(earlier, later, text, i, j)
  }

  ghost predicate NoCommon(s: string, t: string) {
    forall c | c in s :: c !in t
  }

  /** Languages without a common character are compatible in either order. */
  lemma DisjointIsCompatible(earlier: Language, later: Language)
    requires earlier.Valid() && later.Valid()
    requires forall s, t :: earlier.viable(s) && later.viable(t) ==> NoCommon(s, t)
    ensures Compatible(earlier, later)
  {
    forall text: string, i: nat, j: nat
      ensures !CutsInto(earlier, later, text, i, j)
    {
      if CutsInto(earlier, later, text, i, j) {
        SharedCharacter(earlier, later, text, i, j);
      }
    }
  }

  lemma SharedCharacter(earlier: Language, later: Language, text: string, i: nat, j: nat)
    requires earlier.Valid() && later.Valid() && CutsInto(earlier, later, text, i, j)
    ensures var u, w := text[j..j + earlier.length], text[i..i + later.length];
            earlier.viable(u) && later.viable(w) && !NoCommon(u, w)
  {
    var u, w := text[j..j + earlier.length], text[i..i + later.length];
    var k := if i <= j then j else i;
    assert u[k - j] == text[k] && w[k - i] == text[k];
    assert text[k] in u && text[k] in w;
  }

  ghost predicate Fit(languages: seq<Language>, placeholder: string) {
    forall i | 0 <= i < |languages| :: languages[i].Valid() && languages[i].Avoids(placeholder)
  }

  ghost predicate AllCompatible(languages: seq<Language>) {
    forall a, b | 0 <= a < b < |languages| :: Tight(languages[a]) && Compatible(languages[a], languages[b])
  }

  // ---- The whole-text answer, and the protected passes ----------------------------------------

  /** Each language's words replaced in turn, the first language first. */
  function ReplaceAll(languages: seq<Language>, placeholder: string, text: string): string
    requires forall i | 0 <= i < |languages| :: 1 <= languages[i].length
    decreases |languages|
  {
    if |languages| == 0 then text
    else
      var k := |languages| - 1;
      Replace(languages[k], placeholder, ReplaceAll(languages[..k], placeholder, text))
  }

  function Protected(languages: seq<Language>, placeholder: string, text: string): string
    requires forall i | 0 <= i < |languages| :: 1 <= languages[i].length
    decreases |languages|
  {
    if |languages| == 0 then text
    else
      var k := |languages| - 1;
      Settle(languages[k], placeholder, Protected(languages[..k], placeholder, text), true, 0)
  }

  lemma PassesLast(ps: seq<Pattern>, placeholder: string, text: string, protectTail: bool)
    requires |ps| > 0 && forall i | 0 <= i < |ps| :: ps[i].WellFormed()
    ensures var k := |ps| - 1;
            Passes(ps, placeholder, text, protectTail)
            == Shown(Pass(ps[k], Passes(ps[..k], placeholder, text, protectTail), protectTail), placeholder)
    decreases |ps|
  {
    if |ps| == 1 {
      assert |ps[..0]| == 0 && |ps[1..]| == 0;
    } else {
      var rest := ps[1..];
      PassesLast(rest, placeholder, Shown(Pass(ps[0], text, protectTail), placeholder), protectTail);
      assert ps[..|ps| - 1][1..] == rest[..|rest| - 1] && ps[..|ps| - 1][0] == ps[0];
    }
  }

  ghost predicate FindsEach(ps: seq<Pattern>, languages: seq<Language>) {
    && |ps| == |languages|
    && forall i | 0 <= i < |ps| :: ps[i].WellFormed() && languages[i].Valid() && Finds(ps[i], languages[i])
  }

  lemma FindsPrefix(ps: seq<Pattern>, languages: seq<Language>, k: nat)
    requires FindsEach(ps, languages) && k <= |ps|
    ensures FindsEach(ps[..k], languages[..k])
  {
  }

  lemma {:induction false} PassesProtect(ps: seq<Pattern>, languages: seq<Language>, placeholder: string, text: string)
    requires FindsEach(ps, languages)
    ensures Passes(ps, placeholder, text, true) == Protected(languages, placeholder, text)
    decreases |ps|
  {
    if |ps| > 0 {
      var k := |ps| - 1;
      FindsPrefix(ps, languages, k);
      PassesProtect(ps[..k], languages[..k], placeholder, text);
      PassesLast(ps, placeholder, text, true);
      var before := Protected(languages[..k], placeholder, text);
      PassIsSettle(languages[k], ps[k], placeholder, before, true);
    }
  }

  lemma {:induction false} PassesReplace(ps: seq<Pattern>, languages: seq<Language>, placeholder: string, text: string)
    requires FindsEach(ps, languages)
    ensures Passes(ps, placeholder, text, false) == ReplaceAll(languages, placeholder, text)
    decreases |ps|
  {
    if |ps| > 0 {
      var k := |ps| - 1;
      FindsPrefix(ps, languages, k);
      PassesReplace(ps[..k], languages[..k], placeholder, text);
      PassesLast(ps, placeholder, text, false);
      var before := ReplaceAll(languages[..k], placeholder, text);
      PassIsSettle(languages[k], ps[k], placeholder, before, false);
      ReplaceIsSettle(languages[k], placeholder, before);
    }
  }

  /** The detectors of the languages themselves. */
  function Finders(languages: seq<Language>): (ps: seq<Pattern>)
    requires forall i | 0 <= i < |languages| :: languages[i].Valid()
    ensures FindsEach(ps, languages)
  {
    seq(|languages|, i requires 0 <= i < |languages| => LanguagePattern("", languages[i]))
  }

  /** The protected passes leave words at the tail only, of every language. */
  lemma ProtectedClears(languages: seq<Language>, placeholder: string, text: string, j: nat)
    requires Fit(languages, placeholder) && j < |languages|
    ensures WordsOnlyAtTail(languages[j], Protected(languages, placeholder, text), true)
  {
    var ps := Finders(languages);
    PassesProtect(ps, languages, placeholder, text);
    PassesClear(languages[j], ps, j, placeholder, text, true);
  }

  // ---- Earlier languages see nothing new ------------------------------------------------------

  lemma {:induction false} AllOpenNoStart(other: Language, languages: seq<Language>, placeholder: string, x: string, text: string)
    requires other.Valid() && other.Avoids(placeholder) && Fit(languages, placeholder) && |x| > 0
    requires !other.StartsAt(x + text, 0)
    ensures !other.StartsAt(x + ReplaceAll(languages, placeholder, text), 0)
    decreases |languages|
  {
    if |languages| > 0 {
      var k := |languages| - 1;
      AllOpenNoStart(other, languages[..k], placeholder, x, text);
      ReplaceOpensNoStart(other, languages[k], placeholder, x, ReplaceAll(languages[..k], placeholder, text));
    }
  }

  /** The same at any position before the replaced text. */
  lemma NoStartAtPosition(other: Language, languages: seq<Language>, placeholder: string, x: string, text: string, i: nat)
    requires other.Valid() && other.Avoids(placeholder) && Fit(languages, placeholder) && i < |x|
    requires !other.StartsAt(x + text, i)
    ensures !other.StartsAt(x + ReplaceAll(languages, placeholder, text), i)
  {
    var front, back := x[..i], x[i..];
    var after := ReplaceAll(languages, placeholder, text);
    SplitsAndJoins(x, i);
    Associative(front, back, text);
    Associative(front, back, after);
    ShiftPositions(other, front, back + text, 0);
    ShiftPositions(other, front, back + after, 0);
    AllOpenNoStart(other, languages, placeholder, back, text);
  }

  /** A prefix in which no word of any language starts is kept by all replacements. */
  lemma {:induction false} AllKeepPrefix(languages: seq<Language>, placeholder: string, x: string, text: string)
    requires Fit(languages, placeholder)
    requires forall j | 0 <= j < |languages| :: NoStartBefore(languages[j], x + text, |x|)
    ensures ReplaceAll(languages, placeholder, x + text) == x + ReplaceAll(languages, placeholder, text)
    decreases |languages|
  {
    if |languages| > 0 {
      var k := |languages| - 1;
      var before := languages[..k];
      assert forall j | 0 <= j < k :: before[j] == languages[j];
      AllKeepPrefix(before, placeholder, x, text);
      var after := ReplaceAll(before, placeholder, text);
      forall i: nat | i < |x|
        ensures !languages[k].WordAt(x + after, i)
      {
        NoStartAtPosition(languages[k], before, placeholder, x, text, i);
        if languages[k].WordAt(x + after, i) {
          WordStarts(languages[k], x + after, i);
        }
      }
      PrefixKept(languages[k], placeholder, x, after);
    }
  }

  // ---- One more language ----------------------------------------------------------------------

  /** What is settled of `text`, as `front`, and the rest, as `rest`, answer for `text` followed by `more`. */
  ghost predicate Answers(languages: seq<Language>, placeholder: string, text: string, front: string, rest: string, more: string)
    requires forall i | 0 <= i < |languages| :: 1 <= languages[i].length
  {
    ReplaceAll(languages, placeholder, text + more) == front + ReplaceAll(languages, placeholder, rest + more)
  }

  /** The protected text is settled up to `n`: nothing starts before, the rest is the beginning of a word of
      some language, and whatever follows changes only the rest. */
  ghost predicate Staged(languages: seq<Language>, placeholder: string, text: string, n: nat)
    requires forall i | 0 <= i < |languages| :: 1 <= languages[i].length
  {
    var shown := Protected(languages, placeholder, text);
    && n <= |shown|
    && (forall j | 0 <= j < |languages| :: NoStartBefore(languages[j], shown, n))
    && (n < |shown| ==> exists j :: 0 <= j < |languages| && languages[j].viable(shown[n..]))
    && (forall more :: Answers(languages, placeholder, text, shown[..n], shown[n..], more))
  }

  lemma NothingStaged(placeholder: string, text: string)
    ensures Staged([], placeholder, text, |text|)
  {
    forall more
      ensures Answers([], placeholder, text, text[..|text|], text[|text|..], more)
    {
      assert text[..|text|] == text && text[|text|..] + more == more;
    }
  }

  /** A word that ends inside the beginning of an earlier word cuts into that word once it is complete. */
  lemma CutsIntoCompletion(earlier: Language, later: Language, text: string, n: nat, i: nat, word: string)
    requires earlier.Valid() && later.Valid() && WordsOnlyAtTail(earlier, text, true)
    requires n < |text| && Completes(earlier, text[n..], word)
    requires later.WordAt(text, i) && n < i + later.length < |text|
    ensures CutsInto(earlier, later, text[..n] + word, i, n)
  {
    var whole := text[..n] + word;
    assert whole[n..n + earlier.length] == word;
    assert word[..|text| - n] == text[n..];
    SplitsAndJoins(text, n);
    assert whole[..|text|] == text;
    SameWordBefore(later, text, whole, i);
    forall k: nat | i <= k && k + earlier.length <= i + later.length
      ensures !earlier.WordAt(whole, k)
    {
      SameWordBefore(earlier, text, whole, k);
    }
  }

  /** A word that reaches into the beginning of an earlier word touches the end of the text. */
  lemma ReachesTheEnd(earlier: Language, later: Language, text: string, n: nat, i: nat)
    requires earlier.Valid() && later.Valid() && Tight(earlier) && Compatible(earlier, later)
    requires n < |text| && earlier.viable(text[n..]) && WordsOnlyAtTail(earlier, text, true)
    requires later.WordAt(text, i) && n < i + later.length
    ensures i + later.length == |text|
  {
    if i + later.length < |text| {
      var word := Completion(earlier, text[n..]);
      CutsIntoCompletion(earlier, later, text, n, i, word);
    }
  }

  lemma Completion(language: Language, s: string) returns (word: string)
    requires Tight(language) && language.viable(s)
    ensures Completes(language, s, word)
  {
    assert CanBegin(language, s);
    word :| Completes(language, s, word);
  }

  lemma SameWordBefore(language: Language, text: string, whole: string, i: nat)
    requires language.Valid() && |text| <= |whole| && whole[..|text|] == text && i + language.length <= |text|
    ensures language.WordAt(whole, i) == language.WordAt(text, i)
  {
    SliceOfSlice(whole, 0, |text|, i, i + language.length);
  }

  /** All that one more language needs to know about the languages before it. */
  ghost predicate Follows(languages: seq<Language>, next: Language, placeholder: string) {
    && Fit(languages, placeholder) && next.Valid() && next.Avoids(placeholder)
    && forall j | 0 <= j < |languages| :: Tight(languages[j]) && Compatible(languages[j], next)
  }

  lemma WordsTouchTheEnd(languages: seq<Language>, next: Language, placeholder: string, text: string, n: nat)
    requires Follows(languages, next, placeholder) && Staged(languages, placeholder, text, n)
    ensures var shown := Protected(languages, placeholder, text);
            TouchTheEnd(next, shown, n)
  {
    var shown := Protected(languages, placeholder, text);
    if n < |shown| {
      var j :| 0 <= j < |languages| && languages[j].viable(shown[n..]);
      ProtectedClears(languages, placeholder, text, j);
      forall i: nat | next.WordAt(shown, i) && n < i + next.length
        ensures i + next.length == |shown|
      {
        ReachesTheEnd(languages[j], next, shown, n, i);
      }
    }
  }

  lemma LastOf(languages: seq<Language>, next: Language)
    ensures var all := languages + [next];
            all[|all| - 1] == next && all[..|all| - 1] == languages
  {
  }

  lemma AnswersFrom(languages: seq<Language>, next: Language, placeholder: string, text: string, shown: string, n: nat,
                    more: string, after: string)
    requires (forall i | 0 <= i < |languages| :: 1 <= languages[i].length) && next.Valid()
    requires n <= |shown| && Settled(next, shown, n, 0) <= n
    requires ReplaceAll(languages, placeholder, text + more) == shown[..n] + after
    requires var r := Settled(next, shown, n, 0);
             && ReplaceAll(languages, placeholder, shown[r..] + more) == shown[r..n] + after
             && Continues(next, shown, r, shown[..n] + after)
    ensures Answers(languages + [next], placeholder, text, SettledText(next, placeholder, shown, n, 0),
                    shown[Settled(next, shown, n, 0)..], more)
  {
    var r := Settled(next, shown, n, 0);
    var whole := shown[..n] + after;
    assert whole[r..] == shown[r..n] + after;
    SettleLands(next, placeholder, shown, n, 0, r, whole, false);
    ReplaceIsSettle(next, placeholder, whole);
    SettleAll(next, placeholder, whole, r);
    ReplaceOne(languages, next, placeholder, text + more);
    ReplaceOne(languages, next, placeholder, shown[r..] + more);
  }

  lemma ReplaceOne(languages: seq<Language>, next: Language, placeholder: string, text: string)
    requires (forall i | 0 <= i < |languages| :: 1 <= languages[i].length) && 1 <= next.length
    ensures ReplaceAll(languages + [next], placeholder, text)
         == Replace(next, placeholder, ReplaceAll(languages, placeholder, text))
  {
    LastOf(languages, next);
  }

  /** What the next language settles is settled in the whole-text answer too. */
  lemma AnswersNext(languages: seq<Language>, next: Language, placeholder: string, text: string, shown: string, n: nat,
                    more: string)
    requires Fit(languages, placeholder) && next.Valid() && next.Avoids(placeholder)
    requires n <= |shown| && Settled(next, shown, n, 0) <= n
    requires forall j | 0 <= j < |languages| :: NoStartBefore(languages[j], shown, n)
    requires Answers(languages, placeholder, text, shown[..n], shown[n..], more)
    ensures Answers(languages + [next], placeholder, text, SettledText(next, placeholder, shown, n, 0),
                    shown[Settled(next, shown, n, 0)..], more)
  {
    WholeContinues(languages, next, placeholder, shown, n, more);
    BetweenKept(languages, placeholder, shown, n, Settled(next, shown, n, 0), more);
    AnswersFrom(languages, next, placeholder, text, shown, n, more, ReplaceAll(languages, placeholder, shown[n..] + more));
  }

  lemma WholeContinues(languages: seq<Language>, next: Language, placeholder: string, shown: string, n: nat, more: string)
    requires Fit(languages, placeholder) && next.Valid() && next.Avoids(placeholder) && n <= |shown|
    ensures forall r: nat | r <= n ::
              Continues(next, shown, r, shown[..n] + ReplaceAll(languages, placeholder, shown[n..] + more))
  {
    var front, rest := shown[..n], shown[n..];
    var after := ReplaceAll(languages, placeholder, rest + more);
    forall i: nat | i < n && !next.StartsAt(shown, i)
      ensures !next.WordAt(front + after, i)
    {
      SplitsAndJoins(shown, n);
      ExtensionStartsNothing(next, shown, more, i);
      Associative(front, rest, more);
      NoStartAtPosition(next, languages, placeholder, front, rest + more, i);
      if next.WordAt(front + after, i) {
        WordStarts(next, front + after, i);
      }
    }
    forall r: nat | r <= n
      ensures Continues(next, shown, r, front + after)
    {
      assert (front + after)[..r] == front[..r] == shown[..r];
    }
  }

  /** The earlier languages leave alone what only the next one holds back. */
  lemma BetweenKept(languages: seq<Language>, placeholder: string, shown: string, n: nat, r: nat, more: string)
    requires Fit(languages, placeholder) && r <= n <= |shown|
    requires forall j | 0 <= j < |languages| :: NoStartBefore(languages[j], shown, n)
    ensures ReplaceAll(languages, placeholder, shown[r..] + more)
         == shown[r..n] + ReplaceAll(languages, placeholder, shown[n..] + more)
  {
    var between, rest := shown[r..n], shown[n..];
    assert shown[r..] == between + rest;
    Associative(between, rest, more);
    forall j | 0 <= j < |languages|
      ensures NoStartBefore(languages[j], between + (rest + more), |between|)
    {
      LaterNoStart(languages[j], shown, n, r, more);
    }
    AllKeepPrefix(languages, placeholder, between, rest + more);
  }

  lemma LaterNoStart(language: Language, shown: string, n: nat, r: nat, more: string)
    requires language.Valid() && r <= n <= |shown| && NoStartBefore(language, shown, n)
    ensures NoStartBefore(language, shown[r..n] + (shown[n..] + more), n - r)
  {
    Associative(shown[r..n], shown[n..], more);
    assert shown[r..n] + shown[n..] == shown[r..];
    SplitsAndJoins(shown, r);
    forall i: nat | i < n - r
      ensures !language.StartsAt(shown[r..] + more, i)
    {
      ShiftPositions(language, shown[..r], shown[r..], i);
      ExtensionStartsNothing(language, shown[r..], more, i);
    }
  }

  lemma StartsNothingNext(languages: seq<Language>, next: Language, placeholder: string, text: string, n: nat)
    requires Follows(languages, next, placeholder) && Staged(languages, placeholder, text, n)
    ensures var shown := Protected(languages, placeholder, text);
            var settled := SettledText(next, placeholder, shown, n, 0);
            forall j | 0 <= j < |languages + [next]| ::
              NoStartBefore((languages + [next])[j], Settle(next, placeholder, shown, true, 0), |settled|)
  {
    var shown := Protected(languages, placeholder, text);
    WordsTouchTheEnd(languages, next, placeholder, text, n);
    SettledWithin(next, shown, n, 0);
    SettledStartsNothing(next, next, placeholder, shown, n, 0, Settled(next, shown, n, 0));
    forall j | 0 <= j < |languages|
      ensures NoStartBefore(languages[j], Settle(next, placeholder, shown, true, 0),
                            |SettledText(next, placeholder, shown, n, 0)|)
    {
      SettledStartsNothing(languages[j], next, placeholder, shown, n, 0, Settled(next, shown, n, 0));
    }
  }

  /** One more compatible language keeps the text staged, at the end of what is settled now. */
  lemma StageNext(languages: seq<Language>, next: Language, placeholder: string, text: string, n: nat) returns (n': nat)
    requires Follows(languages, next, placeholder) && Staged(languages, placeholder, text, n)
    ensures Fit(languages + [next], placeholder) && Staged(languages + [next], placeholder, text, n')
  {
    var all := languages + [next];
    var shown := Protected(languages, placeholder, text);
    var r, settled := Settled(next, shown, n, 0), SettledText(next, placeholder, shown, n, 0);
    n' := |settled|;
    SettlesWithin(languages, next, placeholder, text, n);
    assert Protected(all, placeholder, text) == settled + shown[r..] by { LastOf(languages, next); }
    var after := settled + shown[r..];
    assert after[..n'] == settled && after[n'..] == shown[r..];
    StartsNothingNext(languages, next, placeholder, text, n);
    RestIsViable(languages, next, shown, n);
    forall more
      ensures Answers(all, placeholder, text, after[..n'], after[n'..], more)
    {
      assert Answers(languages, placeholder, text, shown[..n], shown[n..], more);
      AnswersNext(languages, next, placeholder, text, shown, n, more);
    }
  }

  lemma SettlesWithin(languages: seq<Language>, next: Language, placeholder: string, text: string, n: nat)
    requires Follows(languages, next, placeholder) && Staged(languages, placeholder, text, n)
    ensures var shown := Protected(languages, placeholder, text);
            var r := Settled(next, shown, n, 0);
            r <= n && Settle(next, placeholder, shown, true, 0) == SettledText(next, placeholder, shown, n, 0) + shown[r..]
  {
    var shown := Protected(languages, placeholder, text);
    WordsTouchTheEnd(languages, next, placeholder, text, n);
    SettledWithin(next, shown, n, 0);
    RestStays(next, placeholder, shown, n, 0);
    ProtectedLands(next, placeholder, shown, n, 0);
  }

  lemma RestIsViable(languages: seq<Language>, next: Language, shown: string, n: nat)
    requires 1 <= next.length && n <= |shown| && Settled(next, shown, n, 0) <= n
    requires n < |shown| ==> exists j :: 0 <= j < |languages| && languages[j].viable(shown[n..])
    ensures var all := languages + [next];
            var r := Settled(next, shown, n, 0);
            r < |shown| ==> exists j :: 0 <= j < |all| && all[j].viable(shown[r..])
  {
    var all := languages + [next];
    var r := Settled(next, shown, n, 0);
    if r < n {
      assert shown[r..Min(r + next.length, |shown|)] == shown[r..];
      assert all[|languages|] == next;
    } else if n < |shown| {
      var j :| 0 <= j < |languages| && languages[j].viable(shown[n..]);
      assert all[j] == languages[j];
    }
  }

  lemma {:induction false} Stage(languages: seq<Language>, placeholder: string, text: string) returns (n: nat)
    requires Fit(languages, placeholder) && AllCompatible(languages)
    ensures Staged(languages, placeholder, text, n)
    decreases |languages|
  {
    if |languages| == 0 {
      n := |text|;
      NothingStaged(placeholder, text);
    } else {
      var k := |languages| - 1;
      var before, next := languages[..k], languages[k];
      assert languages == before + [next];
      CompatiblePrefix(languages, placeholder);
      n := Stage(before, placeholder, text);
      n := StageNext(before, next, placeholder, text, n);
    }
  }

  lemma CompatiblePrefix(languages: seq<Language>, placeholder: string)
    requires Fit(languages, placeholder) && AllCompatible(languages) && |languages| > 0
    ensures var k := |languages| - 1;
            AllCompatible(languages[..k]) && Follows(languages[..k], languages[k], placeholder)
  {
  }

  // ---- Whole streams --------------------------------------------------------------------------

  ghost predicate HoldsAtMost(p: Pattern, n: int) {
    forall text :: |text| <= EarliestUnsafe(p.scan(text), |text|) + n
  }

  ghost predicate CatchesAll(cfg: Config, languages: seq<Language>)
    requires |cfg.patterns| == |languages| && forall i | 0 <= i < |languages| :: 1 <= languages[i].length
  {
    forall i | 0 <= i < |languages| ::
      Catches(cfg.patterns[i], languages[i]) && HoldsAtMost(cfg.patterns[i], cfg.maxHoldback)
  }

  /** The detectors are those of the languages, in order; the languages are compatible and foreign to the
      placeholder; and the ceiling leaves room for what a detector holds back. */
  ghost predicate Listed(cfg: Config, languages: seq<Language>) {
    && cfg.WellFormed() && 0 <= cfg.maxHoldback && |cfg.patterns| == |languages|
    && Fit(languages, cfg.placeholder) && AllCompatible(languages)
    && CatchesAll(cfg, languages)
  }

  lemma ListedFinds(cfg: Config, languages: seq<Language>)
    requires Listed(cfg, languages)
    ensures FindsEach(cfg.patterns, languages)
  {
  }

  lemma HeldFits(cfg: Config, languages: seq<Language>, text: string)
    requires Listed(cfg, languages)
    ensures |text| <= HoldbackIndex(cfg.patterns, text) + cfg.maxHoldback
  {
    var split := HoldbackIndex(cfg.patterns, text);
    if split < |text| {
      var i :| 0 <= i < |cfg.patterns| && EarliestUnsafe(cfg.patterns[i].scan(text), |text|) == split;
      assert HoldsAtMost(cfg.patterns[i], cfg.maxHoldback);
    }
  }

  lemma ViableStarts(language: Language, shown: string, n: nat)
    requires language.Valid() && n < |shown| && language.viable(shown[n..])
    ensures language.StartsAt(shown, n)
  {
    assert shown[n..Min(n + language.length, |shown|)] == shown[n..];
  }

  lemma CatchesAt(p: Pattern, language: Language, text: string)
    requires 1 <= language.length && Catches(p, language)
    ensures EarliestUnsafe(p.scan(text), |text|) <= EarliestUnsafe(language.Scan(text, 0), |text|)
  {
  }

  /** The beginning of a word is held back. */
  lemma HoldsRest(cfg: Config, languages: seq<Language>, text: string, n: nat)
    requires Listed(cfg, languages) && Staged(languages, cfg.placeholder, text, n)
    ensures HoldbackIndex(cfg.patterns, Protected(languages, cfg.placeholder, text)) <= n
  {
    var shown := Protected(languages, cfg.placeholder, text);
    if n < |shown| {
      var j := SomeViable(languages, shown, n);
      ProtectedClears(languages, cfg.placeholder, text, j);
      ViableStarts(languages[j], shown, n);
      ScanHoldsStarts(languages[j], shown, 0, n);
      CatchesAt(cfg.patterns[j], languages[j], shown);
    }
  }

  lemma SomeViable(languages: seq<Language>, shown: string, n: nat) returns (j: nat)
    requires n <= |shown| && exists j :: 0 <= j < |languages| && languages[j].viable(shown[n..])
    ensures j < |languages| && languages[j].viable(shown[n..])
  {
    j :| 0 <= j < |languages| && languages[j].viable(shown[n..]);
  }

  /** Wherever within its settled part the protected text is split, the two parts answer for the whole. */
  lemma SplitAnswers(languages: seq<Language>, placeholder: string, text: string, n: nat, split: nat, more: string)
    requires Fit(languages, placeholder) && Staged(languages, placeholder, text, n) && split <= n
    ensures var shown := Protected(languages, placeholder, text);
            Answers(languages, placeholder, text, shown[..split], shown[split..], more)
  {
    var shown := Protected(languages, placeholder, text);
    assert Answers(languages, placeholder, text, shown[..n], shown[n..], more);
    BetweenKept(languages, placeholder, shown, n, split, more);
    PrefixSplits(shown, split, n);
    Associative(shown[..split], shown[split..n], ReplaceAll(languages, placeholder, shown[n..] + more));
  }

  /** What has been emitted, and the answer for what is held followed by `more`, make the answer for the whole. */
  ghost predicate Accounts(languages: seq<Language>, placeholder: string, st: State, output: string, input: string, more: string)
    requires forall i | 0 <= i < |languages| :: 1 <= languages[i].length
  {
    && !st.suppressing
    && ReplaceAll(languages, placeholder, input + more) == output + ReplaceAll(languages, placeholder, st.buffer + more)
  }

  lemma ReleaseHolds(cfg: Config, stats: Stats, shown: string)
    requires |shown| <= HoldbackIndex(cfg.patterns, shown) + cfg.maxHoldback
    ensures var split := HoldbackIndex(cfg.patterns, shown);
            var (st, emitted) := Release(cfg, stats, shown);
            !st.suppressing && emitted == shown[..split] && st.buffer == shown[split..]
  {
  }

  lemma ProtectedAnswers(cfg: Config, languages: seq<Language>, text: string, more: string)
    requires Listed(cfg, languages)
    ensures var shown := Protected(languages, cfg.placeholder, text);
            var split := HoldbackIndex(cfg.patterns, shown);
            Answers(languages, cfg.placeholder, text, shown[..split], shown[split..], more)
  {
    var n := Stage(languages, cfg.placeholder, text);
    HoldsRest(cfg, languages, text, n);
    var shown := Protected(languages, cfg.placeholder, text);
    SplitAnswers(languages, cfg.placeholder, text, n, HoldbackIndex(cfg.patterns, shown), more);
  }

  lemma AbsorbAnswers(cfg: Config, languages: seq<Language>, buffer: string, stats: Stats, text: string, more: string)
    requires Listed(cfg, languages)
    ensures var (st, emitted) := Absorb(cfg, buffer, stats, text);
            && !st.suppressing
            && Answers(languages, cfg.placeholder, buffer + text, emitted, st.buffer, more)
  {
    var all := buffer + text;
    ListedFinds(cfg, languages);
    PassesProtect(cfg.patterns, languages, cfg.placeholder, all);
    var shown := Protected(languages, cfg.placeholder, all);
    HeldFits(cfg, languages, shown);
    ProtectedAnswers(cfg, languages, all, more);
    ReleaseHolds(cfg, stats.(counts := PassCounts(cfg.patterns, cfg.placeholder, all, true, stats.counts)), shown);
  }

  lemma FeedAccounts(cfg: Config, languages: seq<Language>, st: State, output: string, input: string, text: string, more: string)
    requires Listed(cfg, languages) && Accounts(languages, cfg.placeholder, st, output, input, text + more)
    ensures var (after, emitted) := Feed(cfg, st, text);
            Accounts(languages, cfg.placeholder, after, output + emitted, input + text, more)
  {
    Associative(input, text, more);
    if text == "" {
      AppendNil(output);
      AppendNil(more);
    } else {
      var stats := st.stats.(charactersIn := st.stats.charactersIn + |text|);
      AbsorbAnswers(cfg, languages, st.buffer, stats, text, more);
      Associative(st.buffer, text, more);
      var (after, emitted) := Absorb(cfg, st.buffer, stats, text);
      Associative(output, emitted, ReplaceAll(languages, cfg.placeholder, after.buffer + more));
    }
  }

  lemma {:induction false} StreamAccounts(cfg: Config, languages: seq<Language>, chunks: seq<string>, more: string)
    requires Listed(cfg, languages)
    ensures var (st, output) := FeedAll(cfg, INITIAL, chunks);
            Accounts(languages, cfg.placeholder, st, output, Concat(chunks), more)
    decreases |chunks|
  {
    if |chunks| == 0 {
      AppendNil(ReplaceAll(languages, cfg.placeholder, more));
    } else {
      var k := |chunks| - 1;
      StreamAccounts(cfg, languages, chunks[..k], chunks[k] + more);
      var (st, output) := FeedAll(cfg, INITIAL, chunks[..k]);
      FeedAccounts(cfg, languages, st, output, Concat(chunks[..k]), chunks[k], more);
      ConcatLast(chunks);
    }
  }

  /** Main result: with compatible fixed-length detectors, every cut of a text streams to the successive
      replacement of the whole text. */
  lemma StreamReplacesAll(cfg: Config, languages: seq<Language>, chunks: seq<string>)
    requires Listed(cfg, languages)
    ensures Process(cfg, INITIAL, chunks) == ReplaceAll(languages, cfg.placeholder, Concat(chunks))
  {
    StreamAccounts(cfg, languages, chunks, "");
    var st := FeedAll(cfg, INITIAL, chunks).0;
    ListedFinds(cfg, languages);
    PassesReplace(cfg.patterns, languages, cfg.placeholder, st.buffer);
    AppendNil(st.buffer);
    AppendNil(Concat(chunks));
  }
}

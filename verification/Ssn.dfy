/** Social security numbers: the one concrete fixed-length, context-free detector. */
module Ssn {
  import opened Basics
  import opened Detectors
  import opened Redaction
  import RedactorSafety
  import opened Replacing
  import opened ManyDetectors
  import ChunkInvariance

  const REDACTION_PLACEHOLDER := "[REDACTED]"

  const SSN_LENGTH := 11

  /** Which characters the expression's digit class contains; the class covers every decimal digit of
      every script, so only the ASCII digits and a few non-digits are fixed here. */
  ghost predicate DigitClass(digit: char -> bool) {
    && (forall c | '0' <= c <= '9' :: digit(c))
    && !digit('-')
    && (forall c | c in REDACTION_PLACEHOLDER :: !digit(c))
  }

  /** Three digits, two digits, four digits, separated by hyphens. */
  predicate Shape(digit: char -> bool, s: string) {
    && |s| <= SSN_LENGTH
    && forall i | 0 <= i < |s| :: if i == 3 || i == 6 then s[i] == '-' else digit(s[i])
  }

  /** A full match: area not 000, 666 or 900 to 999, group not 00, serial not 0000. */
  predicate IsSsn(digit: char -> bool, s: string) {
    && |s| == SSN_LENGTH
    && Shape(digit, s)
    && s[..3] != "000" && s[..3] != "666" && s[0] != '9'
    && s[4..6] != "00"
    && s[7..11] != "0000"
  }

  /** No part of the text is a social security number. */
  predicate NoSsnIn(digit: char -> bool, text: string) {
    forall a: nat, b: nat | a <= b <= |text| :: !IsSsn(digit, text[a..b])
  }

  /** What has been read so far rules nothing out yet. */
  predicate Viable(digit: char -> bool, s: string) {
    && Shape(digit, s)
    && (|s| >= 1 ==> s[0] != '9')
    && (|s| >= 3 ==> s[..3] != "000" && s[..3] != "666")
    && (|s| >= 6 ==> s[4..6] != "00")
    && (|s| >= 11 ==> s[7..11] != "0000")
  }

  function Language(digit: char -> bool): Detectors.Language {
    Detectors.Language(SSN_LENGTH, (s: string) => Viable(digit, s))
  }

  lemma PrefixIsViable(digit: char -> bool, s: string, w: string)
    requires IsSsn(digit, w) && s <= w
    ensures Viable(digit, s)
  {
    assert s == w[..|s|];
    assert |s| >= 3 ==> s[..3] == w[..3];
    assert |s| >= 6 ==> s[4..6] == w[4..6];
    assert |s| >= 11 ==> s == w;
  }

  /** Any viable text is completed by the end of an ordinary number. */
  function Complete(s: string): string {
    if |s| <= SSN_LENGTH then s + "123-45-6789"[|s|..] else s
  }

  lemma CompletionIsSsn(digit: char -> bool, s: string)
    requires DigitClass(digit) && Viable(digit, s)
    ensures IsSsn(digit, Complete(s))
  {
    var template := "123-45-6789";
    var w := Complete(s);
    assert forall i | 0 <= i < |w| :: w[i] == if i < |s| then s[i] else template[i];
    assert if |s| < 3 then w[..3][2] == '3' else w[..3] == s[..3];
    assert if |s| < 6 then w[4..6][1] == '5' else w[4..6] == s[4..6];
    assert if |s| < 11 then w[7..11][3] == '9' else w == s;
  }

  /** A text is viable exactly when some social security number begins with it. */
  lemma ViableIsPrefix(digit: char -> bool, s: string)
    requires DigitClass(digit)
    ensures Viable(digit, s) <==> exists w :: IsSsn(digit, w) && s <= w
  {
    if Viable(digit, s) {
      CompletionIsSsn(digit, s);
      assert s <= Complete(s);
    }
    if w :| IsSsn(digit, w) && s <= w {
      PrefixIsViable(digit, s, w);
    }
  }

  lemma LanguageIsValid(digit: char -> bool)
    requires DigitClass(digit)
    ensures Language(digit).Valid() && Language(digit).Avoids(REDACTION_PLACEHOLDER)
    ensures forall s :: |s| == SSN_LENGTH ==> (Language(digit).viable(s) <==> IsSsn(digit, s))
  {
    var language := Language(digit);
    forall s, k: nat | k <= |s|
      ensures language.viable(s) ==> language.viable(s[..k])
    {
      if Viable(digit, s) {
        assert k >= 3 ==> s[..k][..3] == s[..3];
        assert k >= 6 ==> s[..k][4..6] == s[4..6];
        assert k >= 11 ==> s[..k] == s;
      }
    }
  }

  /** For every cut of every text and any companion detectors, no eleven characters of the output of a
      stream are a social security number. */
  lemma NoSsnEverLeaves(cfg: Config, digit: char -> bool, k: nat, chunks: seq<string>)
    requires cfg.WellFormed() && DigitClass(digit) && cfg.placeholder == REDACTION_PLACEHOLDER
    requires k < |cfg.patterns| && Catches(cfg.patterns[k], Language(digit))
    ensures NoSsnIn(digit, Process(cfg, INITIAL, chunks))
  {
    LanguageIsValid(digit);
    RedactorSafety.NoWordEverLeaves(cfg, Language(digit), chunks);
    NoWordNoSsn(digit, Process(cfg, INITIAL, chunks));
  }

  lemma NoWordNoSsn(digit: char -> bool, output: string)
    requires RedactorSafety.NoWordIn(Language(digit), output)
    ensures NoSsnIn(digit, output)
  {
    forall a: nat, b: nat | a <= b <= |output|
      ensures !IsSsn(digit, output[a..b])
    {
      assert !Language(digit).WordAt(output, a);
      assert b == a + SSN_LENGTH ==> !Viable(digit, output[a..b]);
    }
  }

  /** Whatever may begin a number begins one. */
  lemma LanguageIsTight(digit: char -> bool)
    requires DigitClass(digit)
    ensures Tight(Language(digit))
  {
    forall s | CanBegin(Language(digit), s)
      ensures exists word :: Completes(Language(digit), s, word)
    {
      CompletionIsSsn(digit, s);
      PrefixIsViable(digit, Complete(s), Complete(s));
      assert Complete(s)[..|s|] == s;
      assert Completes(Language(digit), s, Complete(s));
    }
  }

  /** A stream redacted for numbers alone is, for every cut, the text with each number replaced. */
  lemma StreamsReplaceNumbers(cfg: Config, digit: char -> bool, chunks: seq<string>)
    requires cfg.WellFormed() && DigitClass(digit) && cfg.placeholder == REDACTION_PLACEHOLDER
    requires |cfg.patterns| == 1 && Recognises(cfg.patterns[0], Language(digit)) && SSN_LENGTH <= cfg.maxHoldback
    ensures Process(cfg, INITIAL, chunks) == Replace(Language(digit), REDACTION_PLACEHOLDER, Concat(chunks))
  {
    LanguageIsValid(digit);
    ChunkInvariance.StreamingIsReplacement(cfg, Language(digit), chunks);
  }
}

/**
 * The text heuristics applied to the recognised text of an upload: issuer
 * keywords, the trust score, tokenising and word count, date detection and
 * the response snippet.
 */
module Heuristics {
  import opened Wrappers
  import opened PyStr
  import opened PySort

  // ---------------------------------------------------------------- issuers

  /** The fixed issuer/credential keywords, all lower case. */
  const KnownIssuers: seq<string> := [
    "institute", "university", "college", "certified", "certificate", "issued", "degree",
    "coursera", "edx", "udemy", "iit", "mit", "stanford", "google", "microsoft"
  ]

  /** `text or ""`. */
  function OrEmpty(text: Option<string>): string {
    if text.Some? then text.value else ""
  }

  /** kw is a known issuer keyword found, case-insensitively, in text. */
  predicate IssuerMatch(text: string, kw: string) {
    kw in KnownIssuers && Contains(Lower(text), kw)
  }

  /** Matching is insensitive to the case of the text. */
  lemma IssuerMatchIgnoresCase(text: string, kw: string)
    ensures IssuerMatch(Lower(text), kw) == IssuerMatch(text, kw)
  {
    LowerIdempotent(text);
  }

  /** `detect_issuer_in_text`: the known keywords occurring in the lower-cased
      text, sorted and without duplicates. */
  method DetectIssuers(text: Option<string>) returns (found: seq<string>)
    ensures StrictlySorted(found)
    ensures forall kw :: kw in found <==> IssuerMatch(OrEmpty(text), kw)
    ensures (text == None || text == Some("")) ==> found == []
  {
    var t := Lower(OrEmpty(text));
    var hits: set<string> := {};
    for i := 0 to |KnownIssuers|
      invariant forall kw :: kw in hits <==> kw in KnownIssuers[..i] && Contains(t, kw)
    {
      var kw := KnownIssuers[i];
      assert KnownIssuers[..i + 1] == KnownIssuers[..i] + [kw];
      if Contains(t, kw) {
        hits := hits + {kw};
      }
    }
    assert KnownIssuers[..|KnownIssuers|] == KnownIssuers;
    found := SortedSet(hits);
  }

  // ------------------------------------------------------------ trust score

  const BaseScore := 30
  const WordThreshold := 50
  const WordBonus := 30
  const IssuerWeight := 10
  const IssuerCap := 30
  const DateBonus := 10
  const MaxScore := 100

  function Min(a: int, b: int): int { if a <= b then a else b }
  function Max(a: int, b: int): int { if a >= b then a else b }

  /** The unclamped score: the base plus the three bonuses. */
  function RawScore(wordCount: int, issuerCount: int, hasDates: bool): (r: int)
    ensures r <= MaxScore
    ensures 0 <= issuerCount ==> BaseScore <= r
  {
    BaseScore
      + (if wordCount > WordThreshold then WordBonus else 0)
      + Min(IssuerCap, issuerCount * IssuerWeight)
      + (if hasDates then DateBonus else 0)
  }

  /** The trust score: the raw score clamped to [0, 100]. */
  function TrustScore(wordCount: int, issuerCount: int, hasDates: bool): (r: int)
    ensures 0 <= r <= MaxScore
    ensures RawScore(wordCount, issuerCount, hasDates) <= MaxScore
  {
    Max(0, Min(MaxScore, RawScore(wordCount, issuerCount, hasDates)))
  }

  /** `quick_trust_score`, adding the bonuses to `score` one at a time. */
  method QuickTrustScore(wordCount: int, issuerCount: int, hasDates: bool) returns (score: int)
    ensures score == TrustScore(wordCount, issuerCount, hasDates)
    ensures 0 <= score <= MaxScore
  {
    score := BaseScore;
    if wordCount > WordThreshold {
      score := score + WordBonus;
    }
    score := score + Min(IssuerCap, issuerCount * IssuerWeight);
    if hasDates {
      score := score + DateBonus;
    }
    score := Max(0, Min(MaxScore, score));
  }

  /** For a non-negative issuer count the clamp never acts: the score is the
      sum of the base and the bonuses, between 30 and 100. */
  lemma TrustScoreUnclamped(wordCount: int, issuerCount: int, hasDates: bool)
    requires issuerCount >= 0
    ensures TrustScore(wordCount, issuerCount, hasDates) == RawScore(wordCount, issuerCount, hasDates)
    ensures BaseScore <= TrustScore(wordCount, issuerCount, hasDates)
  {
  }

  /** The score never decreases when any of its inputs grows. */
  lemma TrustScoreMonotone(w1: int, i1: int, d1: bool, w2: int, i2: int, d2: bool)
    requires w1 <= w2 && i1 <= i2 && (d1 ==> d2)
    ensures TrustScore(w1, i1, d1) <= TrustScore(w2, i2, d2)
  {
  }

  /** Three issuers already earn the whole issuer bonus. */
  lemma TrustScoreIssuerCap(wordCount: int, issuerCount: int, hasDates: bool)
    requires issuerCount >= 3
    ensures TrustScore(wordCount, issuerCount, hasDates) == TrustScore(wordCount, 3, hasDates)
  {
  }

  /** The top score is reached exactly with many words, three issuers and a date. */
  lemma TrustScoreFull(wordCount: int, issuerCount: int, hasDates: bool)
    ensures TrustScore(wordCount, issuerCount, hasDates) == MaxScore
      <==> wordCount > WordThreshold && issuerCount >= 3 && hasDates
  {
  }

  /** More than 50 words, no issuer and no date score 60. */
  lemma TrustScoreWordsOnly(wordCount: int)
    requires wordCount > WordThreshold
    ensures TrustScore(wordCount, 0, false) == 60
  {
  }

  /** An issuer count of -7 or less drives the raw score to 0 or below, so
      the clamp gives 0 whatever the words and the date flag. */
  lemma TrustScoreClampsNegative(wordCount: int, issuerCount: int, hasDates: bool)
    requires issuerCount <= -7
    ensures TrustScore(wordCount, issuerCount, hasDates) == 0
  {
  }

  // ------------------------------------------------------------------ words

  /** Keep the tokens that are not blank once stripped (`if w.strip()`). */
  function NonBlank(tokens: seq<string>): (r: seq<string>)
    ensures |r| <= |tokens|
    ensures forall w :: w in r ==> w in tokens && Strip(w) != []
  {
    if tokens == [] then []
    else (if Strip(tokens[0]) != [] then [tokens[0]] else []) + NonBlank(tokens[1..])
  }

  /** `[w for w in full_text.split() if w.strip()]`. */
  function Words(fullText: string): (r: seq<string>)
    ensures forall w :: w in r ==> w in Split(fullText) && Strip(w) != []
  {
    NonBlank(Split(fullText))
  }

  lemma NonBlankKeepsWord(w: string, rest: seq<string>)
    requires w != [] && NoSpace(w)
    ensures NonBlank([w] + rest) == [w] + NonBlank(rest)
  {
    StripNoSpace(w);
    assert ([w] + rest)[1..] == rest;
  }

  lemma {:induction false} NonBlankKeepsWords(tokens: seq<string>)
    requires forall w :: w in tokens ==> w != [] && NoSpace(w)
    ensures NonBlank(tokens) == tokens
    decreases |tokens|
  {
    if tokens != [] {
      var w := tokens[0];
      assert w in tokens;
      assert tokens == [w] + tokens[1..];
      NonBlankKeepsWord(w, tokens[1..]);
      assert forall x :: x in tokens[1..] ==> x in tokens;
      NonBlankKeepsWords(tokens[1..]);
    }
  }

  /** The blank-token filter is a no-op: the words are exactly the tokens of
      `split()`, each non-empty and free of white space. */
  lemma WordsAreTokens(fullText: string)
    ensures Words(fullText) == Split(fullText)
    ensures forall w :: w in Words(fullText) ==> w != [] && NoSpace(w)
  {
    SplitTokens(fullText);
    NonBlankKeepsWords(Split(fullText));
  }

  // ------------------------------------------------------------------ dates

  predicate IsDecimal(c: char) { '0' <= c <= '9' }

  predicate AllDecimal(s: string) {
    forall i :: 0 <= i < |s| ==> IsDecimal(s[i])
  }

  /** `int(s)` for a string of decimal digits. */
  function DecimalValue(s: string): nat
    requires AllDecimal(s)
  {
    if s == [] then 0 else 10 * DecimalValue(s[..|s| - 1]) + (s[|s| - 1] as int - '0' as int)
  }

  /** The value of a four-digit token, digit by digit. */
  lemma FourDigitValue(s: string)
    requires |s| == 4 && AllDecimal(s)
    ensures DecimalValue(s) == 1000 * (s[0] as int - '0' as int) + 100 * (s[1] as int - '0' as int)
      + 10 * (s[2] as int - '0' as int) + (s[3] as int - '0' as int)
  {
    assert s[..1][..0] == [];
    assert DecimalValue(s[..1]) == s[0] as int - '0' as int;
    assert s[..2][..1] == s[..1];
    assert DecimalValue(s[..2]) == 10 * DecimalValue(s[..1]) + (s[1] as int - '0' as int);
    assert s[..3][..2] == s[..2];
    assert DecimalValue(s[..3]) == 10 * DecimalValue(s[..2]) + (s[2] as int - '0' as int);
    assert s[..3] == s[..|s| - 1];
  }

  const FirstYear := 1900
  const LastYear := 2100

  /** A token read as a year: four decimal digits with a value in [1900, 2100]. */
  predicate IsYearToken(tok: string) {
    |tok| == 4 && AllDecimal(tok) && FirstYear <= DecimalValue(tok) <= LastYear
  }

  /** The phrases that announce a date. */
  const DatePhrases: seq<string> := ["issued on", "date of", "on:"]

  /** `any(... for tok in words)` over the year test. */
  function AnyYear(words: seq<string>): (r: bool)
    ensures r <==> exists w :: w in words && IsYearToken(w)
  {
    if words == [] then false
    else IsYearToken(words[0]) || AnyYear(words[1..])
  }

  /** `any(k in t for k in phrases)`. */
  function AnyPhrase(t: string, phrases: seq<string>): (r: bool)
    ensures r <==> exists j :: 0 <= j < |phrases| && Contains(t, phrases[j])
  {
    if phrases == [] then false
    else
      assert forall j :: 0 <= j < |phrases| - 1 ==> phrases[1..][j] == phrases[j + 1];
      Contains(t, phrases[0]) || AnyPhrase(t, phrases[1..])
  }

  /** The date flag: some word is a year token or the lower-cased text
      holds one of the date phrases. */
  function HasDates(fullText: string): (r: bool)
    ensures r <==> ((exists w :: w in Split(fullText) && IsYearToken(w))
      || (exists j :: 0 <= j < |DatePhrases| && Contains(Lower(fullText), DatePhrases[j])))
  {
    WordsAreTokens(fullText);
    AnyYear(Words(fullText)) || AnyPhrase(Lower(fullText), DatePhrases)
  }

  /** A lone "1999" is a date. */
  lemma HasDatesYear()
    ensures HasDates("1999")
  {
    SplitWord("1999");
    FourDigitValue("1999");
  }

  /** A lone "2150" is outside the window and is not a date. */
  lemma HasDatesOutOfRange()
    ensures !HasDates("2150")
  {
    var t := "2150";
    assert AllDecimal(t);
    assert !IsYearToken(t) by {
      FourDigitValue(t);
    }
    assert Words(t) == [t] by {
      SplitWord(t);
      WordsAreTokens(t);
    }
    assert !AnyYear([t]);
    NoDatePhraseIn(t);
  }

  /** A text made of digits holds no date phrase. */
  lemma NoDatePhraseIn(t: string)
    requires AllDecimal(t)
    ensures !AnyPhrase(Lower(t), DatePhrases)
  {
    forall j | 0 <= j < |DatePhrases| ensures !Contains(Lower(t), DatePhrases[j]) {
      var k := DatePhrases[j];
      assert !IsDecimal(k[0]);
      if Contains(Lower(t), k) {
        ContainsFirstChar(Lower(t), k);
        assert false;
      }
    }
  }

  /** The phrase "issued on" makes the text dated whatever its numbers. */
  lemma HasDatesPhrase(before: string, after: string)
    ensures HasDates(before + "issued on" + after)
  {
    var s := before + "issued on" + after;
    LowerSlice(s, |before|, |before| + 9);
    assert s[|before|..|before| + 9] == "issued on";
    assert Lower("issued on") == "issued on";
    assert OccursAt(Lower(s), "issued on", |before|);
  }

  // ---------------------------------------------------------------- snippet

  const SnippetLength := 1000
  const Ellipsis := "..."

  /** `full_text[:1000] + "..."` when the text is longer than 1000 characters,
      otherwise the text itself. */
  function Snippet(fullText: string): (r: string)
    ensures |fullText| <= SnippetLength ==> r == fullText
    ensures |fullText| > SnippetLength ==>
      |r| == SnippetLength + |Ellipsis| && r[..SnippetLength] == fullText[..SnippetLength]
      && r[SnippetLength..] == Ellipsis
    ensures |r| <= SnippetLength + |Ellipsis|
  {
    if |fullText| > SnippetLength then fullText[..SnippetLength] + Ellipsis else fullText
  }

  // ------------------------------------------------ date scan as written

  /** `c.isdigit()` on Latin-1: the ten decimal digits and the superscripts
      two, three and one, which are digits but not decimal digits. */
  predicate IsPyDigit(c: char) {
    IsDecimal(c) || c == '\U{B2}' || c == '\U{B3}' || c == '\U{B9}'
  }

  /** `int(tok)` raising `ValueError` on a token it cannot read as a number. */
  datatype DateScanError = NotAnInteger(token: string)

  /** `tok.isdigit() and (len(tok) == 4 and 1900 <= int(tok) <= 2100)`,
      including the `ValueError` of `int()` on a superscript digit. */
  function YearTokenAsWritten(tok: string): (r: Result<bool, DateScanError>)
    ensures r.Failure? <==> (|tok| == 4 && (forall i :: 0 <= i < |tok| ==> IsPyDigit(tok[i])) && !AllDecimal(tok))
    ensures AllDecimal(tok) ==> r == Success(IsYearToken(tok))
  {
    if !(|tok| > 0 && forall i :: 0 <= i < |tok| ==> IsPyDigit(tok[i])) then Success(false)
    else if |tok| != 4 then Success(false)
    else if !AllDecimal(tok) then Failure(NotAnInteger(tok))
    else Success(FirstYear <= DecimalValue(tok) <= LastYear)
  }

  /** The short-circuiting `any(...)` over the words, as written. */
  function AnyYearAsWritten(words: seq<string>): (r: Result<bool, DateScanError>)
    ensures r.Failure? ==> exists w :: w in words && YearTokenAsWritten(w).Failure?
  {
    if words == [] then Success(false)
    else match YearTokenAsWritten(words[0])
      case Failure(e) => Failure(e)
      case Success(true) => Success(true)
      case Success(false) => AnyYearAsWritten(words[1..])
  }

  /** The date flag as written; a `Failure` is the exception that ends the
      request with an internal error. */
  function HasDatesAsWritten(fullText: string): (r: Result<bool, DateScanError>)
    ensures r.Failure? ==> exists w :: w in Split(fullText) && YearTokenAsWritten(w).Failure?
  {
    match AnyYearAsWritten(Words(fullText))
    case Failure(e) => Failure(e)
    case Success(true) => Success(true)
    case Success(false) => Success(AnyPhrase(Lower(fullText), DatePhrases))
  }

  /** The token "19²0" passes `isdigit()` and makes `int()` raise. */
  lemma DateScanCrashes()
    ensures HasDatesAsWritten("19\U{B2}0") == Failure(NotAnInteger("19\U{B2}0"))
  {
    var tok := "19\U{B2}0";
    assert |tok| == 4 && IsPyDigit(tok[2]) && !IsDecimal(tok[2]);
    assert IsDecimal(tok[0]) && IsDecimal(tok[1]) && IsDecimal(tok[3]);
    assert YearTokenAsWritten(tok) == Failure(NotAnInteger(tok));
    assert NoSpace(tok);
    SplitWord(tok);
    WordsAreTokens(tok);
  }

  lemma {:induction false} AnyYearAsWrittenAgrees(words: seq<string>)
    ensures AnyYearAsWritten(words).Success? ==> AnyYearAsWritten(words).value == AnyYear(words)
    ensures (forall w, i :: w in words && 0 <= i < |w| ==> !IsPyDigit(w[i]) || IsDecimal(w[i]))
      ==> AnyYearAsWritten(words).Success?
    decreases |words|
  {
    if words != [] {
      AnyYearAsWrittenAgrees(words[1..]);
    }
  }

  /** Where the scan as written does not raise it agrees with HasDates, and it
      cannot raise on a text without superscript digits. */
  lemma HasDatesAsWrittenAgrees(fullText: string)
    ensures HasDatesAsWritten(fullText).Success? ==> HasDatesAsWritten(fullText).value == HasDates(fullText)
    ensures (forall i :: 0 <= i < |fullText| ==> !IsPyDigit(fullText[i]) || IsDecimal(fullText[i]))
      ==> HasDatesAsWritten(fullText).Success?
  {
    AnyYearAsWrittenAgrees(Words(fullText));
    WordsAreTokens(fullText);
    if forall i :: 0 <= i < |fullText| ==> !IsPyDigit(fullText[i]) || IsDecimal(fullText[i]) {
      SplitChars(fullText);
    }
  }

  /** Every character of a token of `split()` is a character of the text. */
  lemma {:induction false} SplitChars(s: string)
    ensures forall w, i :: w in Split(s) && 0 <= i < |w| ==> w[i] in s
    decreases |s|
  {
    if s != [] {
      if IsSpace(s[0]) {
        SplitChars(s[1..]);
      } else {
        var n := RunLength(s);
        SplitChars(s[n..]);
        assert Split(s) == [s[..n]] + Split(s[n..]);
        forall w, i | w in Split(s) && 0 <= i < |w| ensures w[i] in s {
          if w == s[..n] {
            assert w[i] == s[i];
          } else {
            assert w in Split(s[n..]);
            assert w[i] in s[n..];
          }
        }
      }
    }
  }
}

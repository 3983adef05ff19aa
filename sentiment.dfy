/** Sentiment labelling: a blank check, a single-scorer fallback when the VADER
    analyzer could not be initialised, the average of the TextBlob polarity and
    the VADER compound score otherwise, and a three-way threshold at +-0.05.
    The scorers are collaborators: what each returns for the text (a score or an
    exception) is given as a parameter. Scores are mathematical reals. */
module Sentiment {
  import opened PyStr

  /** What one scorer yields for the text: a score or an exception. */
  datatype Score = Polarity(value: real) | ScorerRaises

  datatype Label = Positive | Negative | Neutral | AnalysisError

  const Threshold: real := 0.05

  /** The string the program returns for each label. */
  function LabelText(l: Label): (s: string)
    ensures |s| > 0
  {
    match l
    case Positive => "Positive"
    case Negative => "Negative"
    case Neutral => "Neutral"
    case AnalysisError => "Error in sentiment analysis"
  }

  /** The four returned strings are different from one another. */
  lemma LabelTextInjective(a: Label, b: Label)
    requires LabelText(a) == LabelText(b)
    ensures a == b
  {
  }

  /** The threshold rule: every score gets exactly one of the three sentiment
      labels, the ranges `>= 0.05`, `<= -0.05` and the open interval between. */
  function Bucket(x: real): (l: Label)
    ensures l != AnalysisError
    ensures l == Positive <==> x >= Threshold
    ensures l == Negative <==> x <= -Threshold
    ensures l == Neutral <==> -Threshold < x < Threshold
  {
    if x >= Threshold then Positive
    else if x <= -Threshold then Negative
    else Neutral
  }

  /** The order Negative < Neutral < Positive. */
  function Rank(l: Label): int {
    match l
    case Negative => 0
    case Neutral => 1
    case Positive => 2
    case AnalysisError => -1
  }

  /** A higher score never gets a lower label. */
  lemma BucketMonotone(x: real, y: real)
    requires x <= y
    ensures Rank(Bucket(x)) <= Rank(Bucket(y))
  {
  }

  /** `get_sentiment(text)`: `vaderAvailable` says whether the analyzer was
      initialised; `blob` and `vader` are what the two scorers yield for `text`.
      TextBlob is asked first, so when it raises VADER is not asked. */
  function GetSentiment(text: string, vaderAvailable: bool, blob: Score, vader: Score): (r: Label)
    ensures AllSpace(text) ==> r == Neutral
    ensures r == AnalysisError <==>
              !AllSpace(text) && (blob.ScorerRaises? || (vaderAvailable && vader.ScorerRaises?))
    ensures !AllSpace(text) && !vaderAvailable && blob.Polarity? ==> r == Bucket(blob.value)
    ensures !AllSpace(text) && vaderAvailable && blob.Polarity? && vader.Polarity? ==>
              r == Bucket((blob.value + vader.value) / 2.0)
  {
    StripEmptyIffAllSpace(text);
    if Strip(text) == "" then Neutral
    else if !vaderAvailable then
      match blob
      case ScorerRaises => AnalysisError
      case Polarity(b) => Bucket(b)
    else
      match blob
      case ScorerRaises => AnalysisError
      case Polarity(b) =>
        match vader
        case ScorerRaises => AnalysisError
        case Polarity(v) => Bucket((b + v) / 2.0)
  }

  /** Blank text is labelled Neutral whatever the scorers would yield, and
      whether or not VADER is available: neither is asked. */
  lemma BlankTextIsNeutral(text: string, vaderAvailable: bool, blob: Score, vader: Score,
                           otherAvailable: bool, otherBlob: Score, otherVader: Score)
    requires AllSpace(text)
    ensures GetSentiment(text, vaderAvailable, blob, vader) == Neutral
    ensures GetSentiment(text, vaderAvailable, blob, vader) ==
            GetSentiment(text, otherAvailable, otherBlob, otherVader)
  {
  }

  /** Without VADER only TextBlob's score counts: whatever VADER would yield
      makes no difference. */
  lemma FallbackIgnoresVader(text: string, blob: Score, vader: Score, otherVader: Score)
    ensures GetSentiment(text, false, blob, vader) == GetSentiment(text, false, blob, otherVader)
    ensures !AllSpace(text) && blob.Polarity? ==> GetSentiment(text, false, blob, vader) == Bucket(blob.value)
  {
  }

  /** When both scorers say Positive (or both Negative) on their own, the
      average says so too; and a higher pair of scores never gets a lower label. */
  lemma AgreeingScorers(text: string, b: real, v: real, b': real, v': real)
    requires !AllSpace(text)
    ensures Bucket(b) == Positive && Bucket(v) == Positive ==>
              GetSentiment(text, true, Polarity(b), Polarity(v)) == Positive
    ensures Bucket(b) == Negative && Bucket(v) == Negative ==>
              GetSentiment(text, true, Polarity(b), Polarity(v)) == Negative
    ensures b <= b' && v <= v' ==>
              Rank(GetSentiment(text, true, Polarity(b), Polarity(v))) <=
              Rank(GetSentiment(text, true, Polarity(b'), Polarity(v')))
  {
    if b <= b' && v <= v' {
      BucketMonotone((b + v) / 2.0, (b' + v') / 2.0);
    }
  }

  /** The returned string is always one of the four fixed strings. */
  lemma OneOfFourStrings(text: string, vaderAvailable: bool, blob: Score, vader: Score)
    ensures LabelText(GetSentiment(text, vaderAvailable, blob, vader)) in
              {"Positive", "Negative", "Neutral", "Error in sentiment analysis"}
  {
  }
}

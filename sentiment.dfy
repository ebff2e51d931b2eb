/** The sentiment label of a comment: a three-way threshold map from VADER's
    compound polarity score. */
module Sentiment {
  import opened PyStr

  datatype Label = Positive | Neutral | Negative {
    /** The string the script stores in the sent_class column. */
    function Text(): string
    {
      match this
      case Positive => "positive"
      case Neutral => "neutral"
      case Negative => "negative"
    }

    /** Position in the order negative < neutral < positive. */
    function Rank(): int
    {
      match this
      case Negative => 0
      case Neutral => 1
      case Positive => 2
    }
  }

  /** The thresholds of get_sent_label, tested in the order the code tests them.
      The neutral test is strict at -0.1, so -0.1 itself is negative. */
  function Thresh(score: real): (r: Label)
    ensures r == Positive <==> score > 0.4
    ensures r == Neutral <==> -0.1 < score && score <= 0.4
    ensures r == Negative <==> score <= -0.1
  {
    if 0.4 < score then Positive
    else if -0.1 < score <= 0.4 then Neutral
    else Negative
  }

  /** The exact boundary values and the zero score. */
  lemma ThreshBoundaries()
    ensures Thresh(0.4) == Neutral && Thresh(0.40001) == Positive
    ensures Thresh(-0.1) == Negative && Thresh(-0.09999) == Neutral
    ensures Thresh(0.0) == Neutral
  {
  }

  /** A higher score never gets a lower label. */
  lemma ThreshMonotone(a: real, b: real)
    requires a <= b
    ensures Thresh(a).Rank() <= Thresh(b).Rank()
  {
  }

  /** The three labels are stored as three different strings, so the stored string
      determines the label. */
  lemma LabelTextsDistinct(x: Label, y: Label)
    ensures x.Text() == y.Text() <==> x == y
  {
  }

  /** get_sent_label(text, score): a supplied score is used only when it is truthy,
      so a missing score and a score of 0.0 both rescore the text. */
  function GetSentLabel(compound: string -> real, text: string, score: Option<real>): (r: Label)
    ensures score.None? || score.value == 0.0 ==> r == Thresh(compound(text))
    ensures score.Some? && score.value != 0.0 ==> r == Thresh(score.value)
  {
    var effective := if score.None? || score.value == 0.0 then compound(text) else score.value;
    Thresh(effective)
  }

  /** A missing score and a 0.0 score both label the text by its own compound score. */
  lemma FalsyScoreRescores(compound: string -> real, text: string)
    ensures GetSentLabel(compound, text, None) == Thresh(compound(text))
    ensures GetSentLabel(compound, text, Some(0.0)) == Thresh(compound(text))
  {
  }

  /** A nonzero supplied score decides the label alone: the text and the scorer do not matter. */
  lemma TruthyScoreIgnoresText(c1: string -> real, c2: string -> real, t1: string, t2: string, score: real)
    requires score != 0.0
    ensures GetSentLabel(c1, t1, Some(score)) == GetSentLabel(c2, t2, Some(score)) == Thresh(score)
  {
  }

  /** Labelling a text by itself gives the label of the score get_sent_score returns,
      and a text that scores 0.0 is neutral either way. */
  lemma LabelAgreesWithScore(compound: string -> real, text: string)
    ensures GetSentLabel(compound, text, None) == Thresh(compound(text))
    ensures GetSentLabel(compound, text, Some(compound(text))) == GetSentLabel(compound, text, None)
    ensures compound(text) == 0.0 ==> GetSentLabel(compound, text, None) == Neutral
  {
  }
}

/**
 * Sentiment bucketing for one comment (`get_sentiment`).
 *
 * The polarity scorer is a parameter: for a text it yields a real polarity.
 * Only the sign of the score decides the label.
 */
module SentimentClassifier {
  import opened Options

  datatype Label = Positive | Negative | Neutral

  /**
   * The label `get_sentiment` computes: Positive exactly for a positive score,
   * Negative exactly for a negative one, Neutral exactly for zero.
   */
  function GetSentiment(text: string, polarity: string -> real): (bucket: Label)
    ensures bucket == Positive <==> polarity(text) > 0.0
    ensures bucket == Negative <==> polarity(text) < 0.0
    ensures bucket == Neutral <==> polarity(text) == 0.0
  {
    var sentiment := polarity(text);
    if sentiment > 0.0 then Positive
    else if sentiment < 0.0 then Negative
    else Neutral
  }

  /**
   * `get_sentiment` as written: the label is computed but never returned, so
   * every call yields Python's `None`.
   */
  function GetSentimentAsWritten(text: string, polarity: string -> real): (r: Option<Label>)
    ensures r == None
  {
    var result := GetSentiment(text, polarity);
    None
  }

  /** The value `get_sentiment` returns as written is never the label it computed. */
  lemma AsWrittenDropsLabel(text: string, polarity: string -> real)
    ensures GetSentimentAsWritten(text, polarity) != Some(GetSentiment(text, polarity))
    ensures GetSentimentAsWritten(text, polarity) == None
  {
  }
}

/**
 * The language filter for one comment (`remove_non_english`).
 *
 * The language detector is a parameter: for a text it yields `Some(code)`, or
 * `None` when it raises because the text has no features to classify.
 */
module LanguageFilter {
  import opened Options

  /** The language code a comment must be detected as to stay in the analysis. */
  const ENGLISH: string := "en"

  /**
   * `remove_non_english` has three outcomes: the text itself when the detector
   * reports English, the empty string when the detector raises, and no value
   * at all (`None`, the function runs off its end) for any other language.
   */
  function RemoveNonEnglish(text: string, detect: string -> Option<string>): (r: Option<string>)
    ensures detect(text) == Some(ENGLISH) ==> r == Some(text)
    ensures detect(text) == None ==> r == Some("")
    ensures detect(text).Some? && detect(text).value != ENGLISH ==> r == None
    ensures r == Some(text) <==> detect(text) == Some(ENGLISH) || (text == "" && detect(text) == None)
    ensures r.Some? ==> r.value == text || r.value == ""
  {
    match detect(text)
    case None => Some("")
    case Some(language) => if language == ENGLISH then Some(text) else None
  }

  /**
   * A non-empty text survives the filter exactly when it is detected as
   * English: a corollary of the fourth postcondition of `RemoveNonEnglish`.
   */
  lemma SurvivorIsEnglish(text: string, detect: string -> Option<string>)
    ensures (RemoveNonEnglish(text, detect) == Some(text) && text != "") <==>
            (detect(text) == Some(ENGLISH) && text != "")
  {
  }
}

/** Values shared by every matcher: optional results, the answer triple the
    chatbot returns, and the score thresholds (app.py:16-18). */
module Common {

  /** A value or its absence (`None` in the source). */
  datatype Option<T> = None | Some(value: T)

  /** What a matcher or the whole chatbot answers: the reply text, the score
      in [0, 100] and the pattern, subject or title that produced it. */
  datatype Answer = Answer(response: string, score: real, pattern: string)

  /** Minimum best-pattern score for an intent answer. */
  const ThreshIntent: real := 60.0

  /** Minimum keyword score for a subject match. */
  const ThreshSubject: real := 70.0

  /** Minimum title score for a title match. */
  const ThreshTitle: real := 75.0

  /** The score the subject matcher gives a keyword that it finds inside the
      input after no keyword reached `ThreshSubject` by similarity. */
  const SubstringScore: real := 80.0

  /** Python truthiness of an optional string: present and non-empty. */
  predicate Truthy(s: Option<string>)
  {
    s.Some? && s.value != ""
  }
}

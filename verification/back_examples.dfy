/**
 The usage examples documented with the checker, stated as lemmas about the
 model. Calls that leave out the mode use the default, case-sensitive one.
 */
module BackExamples {
  import opened Back

  /** The examples documented in `src/back.py`, including the unknown-key one. */
  lemma SrcDoctests()
    ensures Check(map["geel" := "yellow", "rood" := "red"], "geel", "yellow") == Graded(true)
    ensures Check(map["Nederland" := "Netherlands", "Duitsland" := "Germany"], "Nederland", "netherlands") == Graded(false)
    ensures Check(map["Nederland" := "Netherlands"], "Nederland", "netherlands", caseSensitive := false) == Graded(true)
    ensures Check(map[], "a", "b") == Raised(EmptyVocabulary)
    ensures Check(map["geel" := "yellow", "rood" := "red"], "blauw", "some answer") == Raised(UnknownKey)
  {
  }

  /** The examples documented in the top-level `back.py`. */
  lemma RootDoctests()
    ensures Check(map["geel" := "yellow", "rood" := "red"], "geel", "yellow") == Graded(true)
    ensures Check(map["Nederland" := "Netherlands", "Duitsland" := "Germany"], "Nederland", "netherlands") == Graded(false)
    ensures Check(map["Nederland" := "Netherlands"], "Nederland", "netherlands", caseSensitive := false) == Graded(true)
    ensures Check(map[], "a", "b") == Raised(EmptyVocabulary)
  {
  }
}

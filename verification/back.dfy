/**
 The backend of the vocabulary tester: grading one answer against a
 vocabulary of word/translation pairs.

 The checker refuses two kinds of call before it looks at the answer: an empty
 vocabulary, and a key the vocabulary does not hold. Those refusals are
 assertion failures in the program; here they are the `Raised` verdict with
 the kind of failure, so that the order in which they are checked is visible.
 */
module Back {
  import opened CaseFold

  /** Maps each word on trial to its correct translation. */
  type Vocabulary = map<string, string>

  /** The two distinguishable ways a call can be refused. */
  datatype CheckError = EmptyVocabulary | UnknownKey

  /** Either the answer was graded, or the call was refused. */
  datatype Verdict = Graded(correct: bool) | Raised(error: CheckError)

  /** Grades answer `ans` for word `key`. Case-sensitive grading accepts exactly
      the stored translation; case-insensitive grading accepts every string
      equal to it up to case. */
  function Check(d: Vocabulary, key: string, ans: string, caseSensitive: bool := true): (r: Verdict)
    ensures r.Raised? <==> |d| == 0 || key !in d
    ensures |d| == 0 ==> r == Raised(EmptyVocabulary)
    ensures |d| != 0 && key !in d ==> r == Raised(UnknownKey)
    ensures key in d && caseSensitive ==> r == Graded(ans == d[key])
    ensures key in d && !caseSensitive ==> r == Graded(EqualIgnoringCase(ans, d[key]))
  {
    if |d| == 0 then Raised(EmptyVocabulary)
    else if key !in d then Raised(UnknownKey)
    else if caseSensitive then Graded(ans == d[key])
    else
      UpperEqualIff(ans, d[key]);
      Graded(Upper(ans) == Upper(d[key]))
  }

  /** An empty vocabulary is refused, whatever the key, answer or mode. */
  lemma EmptyVocabularyRaises(key: string, ans: string, caseSensitive: bool)
    ensures Check(map[], key, ans, caseSensitive) == Raised(EmptyVocabulary)
  {
  }

  /** A key missing from a non-empty vocabulary is refused as unknown. */
  lemma UnknownKeyRaises(d: Vocabulary, key: string, ans: string, caseSensitive: bool)
    requires |d| != 0 && key !in d
    ensures Check(d, key, ans, caseSensitive) == Raised(UnknownKey)
  {
  }

  /** Emptiness is checked first: an empty vocabulary also lacks the key, yet
      the refusal is never the unknown-key one. */
  lemma ErrorPrecedence(d: Vocabulary, key: string, ans: string, caseSensitive: bool)
    requires |d| == 0
    ensures key !in d
    ensures Check(d, key, ans, caseSensitive) != Raised(UnknownKey)
  {
  }

  /** Whether a call is refused, and how, is decided by the vocabulary and the
      key alone: the answer and the mode play no part. */
  lemma RefusalIgnoresAnswerAndMode(d: Vocabulary, key: string, ans: string, caseSensitive: bool,
                                   ans': string, caseSensitive': bool)
    requires Check(d, key, ans, caseSensitive).Raised?
    ensures Check(d, key, ans', caseSensitive') == Check(d, key, ans, caseSensitive)
  {
  }

  /** Every answer accepted case-sensitively is accepted case-insensitively. */
  lemma SensitiveAcceptImpliesInsensitiveAccept(d: Vocabulary, key: string, ans: string)
    requires Check(d, key, ans, true) == Graded(true)
    ensures Check(d, key, ans, false) == Graded(true)
  {
  }

  /** A graded call depends only on the key's own entry: two vocabularies
      that hold the same translation for `key` grade every answer alike. */
  lemma GradeDependsOnlyOnEntry(d: Vocabulary, d': Vocabulary, key: string, ans: string, caseSensitive: bool)
    requires key in d && key in d' && d[key] == d'[key]
    ensures Check(d, key, ans, caseSensitive) == Check(d', key, ans, caseSensitive)
  {
  }

  /** When neither the answer nor the translation has a lower-case letter,
      folding changes nothing and both modes give the same grade. */
  lemma CaselessStringsCompareByIdentity(d: Vocabulary, key: string, ans: string)
    requires key in d
    requires forall i :: 0 <= i < |ans| ==> !IsLower(ans[i])
    requires forall i :: 0 <= i < |d[key]| ==> !IsLower(d[key][i])
    ensures Check(d, key, ans, false) == Check(d, key, ans, true)
  {
    UpperFixesCaseless(ans);
    UpperFixesCaseless(d[key]);
    UpperEqualIff(ans, d[key]);
  }
}

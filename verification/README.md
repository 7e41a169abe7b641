# Vocabulary tester: answer checker

The vocabulary tester's backend is one pure function, `check`, which grades a
quiz answer. Given a vocabulary (a map from each foreign word to its correct
translation), the word on trial, the user's answer and a case-sensitivity flag
that defaults to true, it:

- refuses the call when the vocabulary is empty;
- otherwise refuses the call when the word is not in the vocabulary;
- otherwise reports whether the answer equals the stored translation, either
  exactly or after upper-casing both strings.

The repository carries the function twice, in `src/back.py` and in `back.py`,
with identical bodies (`src/back.py:39-47` and `back.py:35-43`); only the
docstrings differ. The model has one definition, `Back.Check`, and the rows
below cite whichever copy documents the property; each citation holds for both.

Modules:

- `CaseFold` (`case_fold.dfy`): upper-casing (`Upper`), an independent
  character-by-character definition of "equal up to case"
  (`EqualIgnoringCase`), and the proof that comparing upper-cased strings
  decides exactly that relation.
- `Back` (`back.dfy`): the vocabulary type, the two refusal kinds
  (`EmptyVocabulary`, `UnknownKey`), the verdict type and `Check`, with lemmas
  on refusal order, grading modes and locality.
- `BackExamples` (`back_examples.dfy`): the documented usage examples of each
  copy as lemmas.

The program's assertion failures are modelled as the verdict
`Raised(EmptyVocabulary)` or `Raised(UnknownKey)`; a completed call is
`Graded(b)`. The checks are modelled as always active, as the docstrings
promise.

## Model

| member | source | states |
|---|---|---|
| CaseFold.Upper | src/back.py:45-46 | upper-casing keeps the length and leaves no lower-case letter |
| CaseFold.UpperAt | back.py:41-42 | each position of the upper-cased string is the upper case of the character at that position |
| CaseFold.UpperEqualIff | src/back.py:45-47 | the upper-cased answer equals the upper-cased translation exactly when the two strings are equal up to case, position by position (both directions) |
| CaseFold.UpperFixesCaseless | back.py:41-42 | a string with no lower-case letter is unchanged by upper-casing |
| Back.Check | src/back.py:39-47 | refused exactly when the vocabulary is empty or lacks the key; empty vocabulary gives the empty-vocabulary refusal, a missing key in a non-empty one the unknown-key refusal; case-sensitive grading is exact equality with the stored translation; case-insensitive grading is equality up to case |
| Back.EmptyVocabularyRaises | back.py:35 | an empty vocabulary is refused with the empty-vocabulary error for every key, answer and mode |
| Back.UnknownKeyRaises | back.py:36 | a key absent from a non-empty vocabulary is refused with the unknown-key error |
| Back.ErrorPrecedence | src/back.py:39-40 | for an empty vocabulary the key is also absent, yet the refusal is never the unknown-key one |
| Back.RefusalIgnoresAnswerAndMode | back.py:35-36 | whether and how a call is refused does not depend on the answer or the mode |
| Back.SensitiveAcceptImpliesInsensitiveAccept | back.py:38-43 | an answer accepted case-sensitively is accepted case-insensitively |
| Back.GradeDependsOnlyOnEntry | src/back.py:42-47 | a graded result depends only on the key's own translation; other entries do not matter |
| Back.CaselessStringsCompareByIdentity | back.py:40-43 | when neither answer nor translation has a lower-case letter, both modes give the same grade |
| BackExamples.SrcDoctests | src/back.py:24-37 | `yellow` for `geel` is correct; `netherlands` for `Nederland` is wrong by default and correct case-insensitively; an empty vocabulary and the unknown key `blauw` are refused with their own errors |
| BackExamples.RootDoctests | back.py:24-33 | the same first three examples, and the empty-vocabulary refusal |

## Left out

- CaseFold.Upper: folds only the ASCII letters `a`-`z`; Python's `str.upper` also maps other Unicode letters, some to several characters (`ß` to `SS`), from the Unicode database, which is not part of this model.
- The doctest runner blocks at the end of both files (`src/back.py:50-53`, `back.py:46-49`): test plumbing, not behaviour.
- Running Python with assertions stripped (`-O`), where an unknown key surfaces as a `KeyError` and an empty vocabulary is not refused by itself: the model keeps both checks active.
- The assertion message texts: only the two failure kinds are distinguished.
- The Python type annotations are not enforced at run time, so `check` would also accept non-string keys and values; the model types the vocabulary as strings to strings.

# Résumé matcher — a Dafny model of its keyword pipeline

The repository is a small Streamlit page: a user uploads a résumé (PDF) and pastes
a job description. The page then shows a similarity score, the job-description
keywords the résumé is missing, the ones it matches, and an "improved résumé"
preview built around a one-sentence professional summary.

This project models the part of that page that is plain text and set
manipulation. It proves what that part guarantees:

- **`clean_text`** (`Clean` module). It deletes every character outside
  `[a-zA-Z ]` and lower-cases the rest. The model proves four things about it:
  - the output holds only `a`–`z` and spaces;
  - it is idempotent, and a text is a fixed point exactly when it is already clean;
  - the output is a subsequence of the lower-cased input, and no longer than it;
  - it keeps exactly the letters and spaces, counted per character.
- **`str.split()` and token sets** (`Tokens` module). Every token is non-empty
  and free of whitespace. Splitting loses exactly the whitespace. Splitting
  tokens laid out with any whitespace gaps (non-empty between tokens, possibly
  empty at the ends) gives them back, and every text is such a layout of its
  own tokens. Tokens of cleaned text are runs of lower-case letters.
- **Keyword overlap** (`Keywords` module). "Missing" is the job-description
  words minus the résumé words. "Matching" is their intersection. The two are
  disjoint, their union is the job-description word set, and their sizes add up
  to its size. A word's side depends only on whether the résumé has it.
- **Python built-ins the page relies on** (`Lists` module). `list(a_set)` is a
  method that picks elements nondeterministically, because Python does not fix
  the order. Its contract states only that each element appears once. The module
  also models slicing `xs[:n]`, `sep.join` and `str.split(sep)`, and proves the
  round trip between join and split.
- **`generate_summary` and the preview** (`Summary` module). The summary names
  exactly the first five skills, in order. When nothing matches, it names
  `technology, software, development`. The preview's f-string is proved equal to
  its ten lines joined by line breaks. Reading the preview back line by line
  gives the summary, the first ten matching keywords and the first ten missing
  ones.
- **The page's analysis** (`Analyzer` module). Nothing runs without an upload
  and a non-empty job description. When neither cleaned text has a word of two
  or more letters, the similarity score's TF-IDF vectoriser raises an error
  (its vocabulary is empty) and the page stops before the keyword lists.
  Otherwise the method returns both keyword sets and lists, the at-most-15
  shown on the page, the summary and the preview, with all the facts above
  tied together.

Strings are `seq<char>`. Token sets are `set<string>`. Everything is a pure
function except `Lists.ListOf`, `Analyzer.Reporting` and `Analyzer.Analyse`,
which are methods because set-to-list order is unspecified.

Two behaviours of the code are easy to miss:

- `clean_text` (reume.py:28) keeps only the space character, not all
  whitespace, so tabs and newlines are deleted and the words around them merge;
- the keyword lists (reume.py:83, 89) are `list(set)` with no sort, so their
  order is unspecified. The contracts fix what the lists contain and leave
  their order open.

## Model

| member | source | states |
|---|---|---|
| `Clean.Clean` | reume.py:27-29 | Cleaned text holds only lower-case ASCII letters and spaces, and is never longer than the input |
| `Clean.CleanFixpoint` | reume.py:27-29 | Cleaning leaves a text unchanged exactly when it already consists of `a`–`z` and spaces (both directions) |
| `Clean.CleanIdempotent` | reume.py:27-29 | Cleaning already-cleaned text returns it unchanged |
| `Clean.CleanIsSubsequence` | reume.py:28-29 | The output is obtained from the lower-cased input by deleting characters only |
| `Clean.CleanLength` | reume.py:28 | The length is kept exactly when every input character is an ASCII letter or a space, so the empty text maps to the empty text |
| `Clean.CleanCounts` | reume.py:28-29 | Each lower-case letter occurs as often as it and its capital occurred in the input; spaces are kept one for one; nothing else survives |
| `Clean.CleanConcat` | reume.py:28 | Cleaning works character by character: cleaning a concatenation concatenates the cleaned parts, so words separated only by deleted characters merge |
| `Tokens.Split` | reume.py:81-82 | Every token `split()` yields is non-empty and holds no whitespace |
| `Tokens.SplitLosesOnlySpace` | reume.py:81-82 | Gluing the tokens back together gives the text with exactly its whitespace deleted |
| `Tokens.SplitUnwords` | reume.py:81-82 | Splitting tokens joined by single spaces returns those tokens, in order |
| `Tokens.SplitInterleave` | reume.py:81-82 | Tokens laid out with whitespace gaps, non-empty between tokens and possibly empty at either end, split back into exactly those tokens, in order |
| `Tokens.SplitGaps` | reume.py:81-82 | Every text is such a layout of its own tokens: the gaps `split()` drops are whitespace, non-empty between tokens, and together with the tokens rebuild the text |
| `Tokens.CleanTokensAreWords` | reume.py:81-82 | A token of cleaned text is a non-empty run of lower-case ASCII letters |
| `Keywords.Words` | reume.py:81-82 | Every word in the token set of a cleaned text is a keyword: non-empty, lower-case letters only |
| `Keywords.KeywordOverlap` | reume.py:81-89 | Missing and matching are disjoint, cover the job-description words, and their sizes add up to its size; missing words are absent from the résumé and matching ones present |
| `Keywords.OverlapMembership` | reume.py:83-89 | A word is missing exactly when the job description has it and the résumé does not, and matching exactly when both have it |
| `Keywords.MatchingSymmetric` | reume.py:89 | The matching set does not depend on which text is the résumé |
| `Keywords.EmptyResume` | reume.py:81-89 | A résumé without words matches nothing and misses every job-description word |
| `Keywords.NoLettersNoWords` | reume.py:27-29 | A text without ASCII letters, such as the empty text, has no words |
| `Keywords.Vocabulary` | reume.py:65-71 | The TF-IDF vocabulary holds only words of the cleaned texts with two or more letters |
| `Keywords.VocabularyEmpty` | reume.py:65-71 | The vocabulary is empty exactly when every word of both texts is a single letter |
| `Keywords.LetterlessVocabulary` | reume.py:65-71 | Two texts without ASCII letters give an empty vocabulary, the case in which the vectoriser raises |
| `Lists.ListOf` | reume.py:83 | `list(set)` lists every element of the set exactly once, in an order the contract leaves open |
| `Lists.Take` | reume.py:86 | A slice `xs[:n]` is the prefix of length `min(n, len(xs))` |
| `Lists.SplitJoin` | reume.py:33 | Splitting a `sep.join` of a non-empty list on `sep` recovers the joined items, provided no item contains `sep`'s first character |
| `Lists.ParseJoin` | reume.py:103 | A `', '.join` of non-empty, comma-free items reads back as exactly those items, in order; an empty list joins to the empty text |
| `Summary.GenerateSummary` | reume.py:32-33 | The summary starts with the fixed opening and ends with the fixed closing of the template |
| `Summary.SummaryNamesFirstSkills` | reume.py:33 | The summary names exactly the first five skills, in the given order, and never more than five |
| `Summary.SummarySkills` | reume.py:96 | The list handed to the summary is never empty, and is the matching list whenever that is non-empty |
| `Summary.SummaryForMatches` | reume.py:96 | With no match the summary names exactly `technology`, `software`, `development`; otherwise the first five matching keywords |
| `Summary.PreviewIsLines` | reume.py:98-107 | The preview f-string equals its ten lines joined by line breaks |
| `Summary.PreviewReadBack` | reume.py:98-107 | The preview has ten lines; line 3 is the summary, line 6 lists the first ten matching keywords and line 9 the first ten missing ones |
| `Analyzer.BuildTexts` | reume.py:93-107 | The summary built from the keyword lists is the template sentence naming the first five matches (or the fallback skills when nothing matches); the preview is exactly its ten lines, with the fixed headings, the summary, and lists that read back as the first ten keywords of each kind |
| `Analyzer.Reporting` | reume.py:81-107 | The report lists every keyword of each set exactly once, shows the first 15 of each, and carries a summary and preview that agree with the lists as above |
| `Analyzer.Analyse` | reume.py:61-107 | A report exists exactly when a file is uploaded, the job description is non-empty and the TF-IDF vocabulary is not empty; it then carries the keyword overlap of the two texts and is consistent in the sense of `Reporting` |
| `Analyzer.ShownKeywordsAgree` | reume.py:86-106 | The preview's ten keywords of each kind are the first ten of the fifteen on the page, and every shown keyword is on the correct side of the overlap |

## Left out

- Similarity score (reume.py:68-78): TF-IDF weights and cosine similarity come from scikit-learn and use floating point. The rounding to two decimals and the `int()` for the progress bar belong with them. Of the vectoriser only its vocabulary is modelled (`Keywords.Vocabulary`), because an empty one raises an error and stops the page.
- PDF text extraction (reume.py:18-24): PyPDF2 and file I/O. `Analyzer.Analyse` takes the extracted text as a parameter (`None` when no file was uploaded).
- PDF generation and download (reume.py:36-55, 111-118): reportlab rendering and byte buffers.
- Streamlit calls (reume.py:13-15, 58-121 `st.*`): page layout and widgets. What they display is modelled as fields of `Analyzer.Report`.
- Set iteration order: Python does not specify it. `Lists.ListOf` chooses elements nondeterministically, and no contract depends on the order.
- `Clean.Clean`: it lower-cases ASCII letters only. Python's `str.lower` also maps non-ASCII letters, but the filter runs first, so none reach it.
- `Tokens.Split`: whitespace is Python's `str.isspace` set. After cleaning, only the space character can occur.

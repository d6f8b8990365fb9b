# Plagiarism checker: a Dafny model of its comparison core

The plagiarism checker is a small Flask service. A user uploads several
documents. The service pulls the text out of each Word (`.docx`) or PDF
file, normalises it, and compares every document with every later one. Each
comparison yields two scores: a TF-IDF cosine similarity and a word-set
Jaccard similarity. All of this happens in `app.py`.

This project models that core as pure Dafny functions over strings and
sequences, and proves what it guarantees:

- `Chars`: the ASCII character classes that Python's `str.isspace`,
  `re`'s `\s`, `str.split()` and `str.strip()` share, and `str.lower()`
  on one character.
- `Words`: `str.split()` (the maximal non-whitespace runs), `join`, and the
  laws that connect them.
- `Normalize`: `preprocess_text`, built from lower-casing, collapsing each
  whitespace run into one space, and stripping. It proves the shape of the
  result, that the words are kept, an independent join-of-words description,
  the fixed points, and idempotence.
- `Jaccard`: `jaccard_similarity`, computed as an exact rational. It proves
  bounds, symmetry, and both directions of the 0 and 1 cases.
- `Extract`: the suffix dispatch of `upload_files`, the visible logic of
  `extract_text_from_docx` and `extract_text_from_pdf`, and the placeholder
  text for unsupported files.
- `Pairs`: the doubly nested comparison loop, written both as a pure
  schedule of index pairs and as the loop itself. It proves the count, the
  order, and that each pair of documents is compared exactly once.
- `Upload`: the whole upload pipeline from a list of uploads to the list of
  comparison records.

The document libraries and the TF-IDF cosine are not modelled. Functions
passed as parameters stand in for them: `Extract.Parsers` for the libraries
and `cosine` for the cosine.

## Model

| member | source | states |
|---|---|---|
| Chars.ToLower | app.py:32 | Lower-casing leaves no capital. Each capital A..Z maps to the letter at the same offset in a..z. Every other character, and every whitespace class, is unchanged. |
| Normalize.Lower | app.py:32 | The lowered text has the same length, is lowered position by position, and holds no capital. |
| Normalize.StripLeft | app.py:34 | The result is a suffix of the input. Everything removed is whitespace. The result does not start with whitespace. |
| Normalize.StripRight | app.py:34 | The result is a prefix of the input. Everything removed is whitespace. The result does not end with whitespace. |
| Normalize.Strip | app.py:34 | The result has no whitespace at either end. It is a contiguous slice of the input, and only whitespace lies outside that slice on either side. |
| Normalize.CollapseShapeHolds | app.py:33 | After collapsing whitespace runs, every whitespace character is a plain space and no two are adjacent. No capital is introduced. The output is empty exactly when the input is. It starts (ends) with whitespace exactly when the input does. |
| Normalize.CollapseSplit | app.py:33 | Collapsing whitespace runs leaves the word list unchanged. |
| Normalize.StripSplit | app.py:34 | Stripping leaves the word list unchanged. |
| Normalize.LowerSplit | app.py:32 | The words of the lowered text are the lowered words of the original. |
| Normalize.Preprocess | app.py:31-34 | The normalised text is single-spaced, has no whitespace at either end, uses only plain spaces, and holds no capital. |
| Normalize.PreprocessKeepsWords | app.py:31-34 | The words of the normalised text are the lower-cased words of the input, in the same order. |
| Normalize.NormalizedIsJoin | app.py:31-34 | A normalised text equals its own words joined by single spaces. |
| Normalize.HasWordAfterPreprocess | app.py:31-34 | A text that starts with a non-whitespace character still has at least one word after normalisation. |
| Normalize.PreprocessIsJoin | app.py:31-34 | Independent description: normalising a text gives its lower-cased words joined by single spaces. |
| Normalize.CollapseFixes | app.py:33 | A text that is already single-spaced with plain spaces is unchanged by the whitespace substitution. |
| Normalize.PreprocessFixedPoints | app.py:31-34 | Normalisation leaves a text unchanged exactly when it is normalised and has no capital. |
| Normalize.PreprocessLower | app.py:31-34 | Lower-casing the input first does not change the normalised text. |
| Normalize.PreprocessIdempotent | app.py:31-34 | Normalising twice gives the same text as normalising once. |
| Words.Word | app.py:38 | The first word is the longest whitespace-free prefix: a prefix, with no whitespace, followed by whitespace or the end. |
| Words.Split | app.py:38 | Every element of the split is non-empty and has no whitespace. |
| Words.SplitConcat | app.py:38 | If two texts are not glued word-to-word at the seam, splitting their concatenation gives the words of the first followed by the words of the second. |
| Words.SplitKeepsCharacters | app.py:38 | The words, laid end to end, are exactly the non-whitespace characters of the text: none is lost and none invented. |
| Words.SplitJoin | app.py:17 | Joining texts with a whitespace separator and splitting the result gives the words of every text, in order. |
| Words.JoinSplitRoundTrip | app.py:38 | Words joined by single spaces split back into the same list. |
| Jaccard.WordSet | app.py:38 | The word set holds exactly the words of the split. |
| Jaccard.IntersectionBound | app.py:39 | The intersection is never larger than the union, and equal in size exactly when the sets are equal. |
| Jaccard.Ratio | app.py:39 | The ratio lies in [0, 1]. It is 0 exactly when the sets are disjoint, which includes an empty union. It is 1 exactly when the sets are equal and non-empty. |
| Jaccard.Similarity | app.py:37-39 | The score lies between 0 and 1. |
| Jaccard.SimilaritySymmetric | app.py:37-39 | The score does not depend on the order of the two texts. |
| Jaccard.SimilarityNoWords | app.py:39 | Two texts without words score 0 (the guard against an empty union). |
| Jaccard.SimilarityIsOne | app.py:37-39 | The score is 1 exactly when the two texts have the same, non-empty set of words. |
| Jaccard.SimilarityIsZero | app.py:37-39 | The score is 0 exactly when no word of the first text occurs in the second. |
| Jaccard.SimilarityReflexive | app.py:37-39 | A text with at least one word scores 1 against itself. |
| Extract.SuffixesExclusive | app.py:59-62 | No file name ends in both ".docx" and ".pdf", so the order of the two suffix tests does not matter. |
| Extract.Classify | app.py:59-64 | The Word extractor is chosen exactly for names ending in ".docx", the PDF extractor exactly for names ending in ".pdf", and the placeholder exactly for all other names. |
| Extract.DocxText | app.py:15-18 | A Word document's text has no whitespace at either end. |
| Extract.PdfText | app.py:21-28 | A PDF's text has no whitespace at either end. |
| Extract.ExtractText | app.py:58-64 | An unsupported file yields the placeholder text. A supported one yields text without whitespace at either end. |
| Extract.DocxWords | app.py:15-18 | A Word document's text holds the words of its paragraphs, in paragraph order. |
| Extract.PdfWords | app.py:21-28 | A PDF's text holds the words of its pages, in page order. Pages without text contribute none. |
| Extract.PageLinesWords | app.py:24-27 | Pages that have text, each followed by a newline, hold exactly those pages' words, in order. |
| Pairs.Row | app.py:75-77 | Before inner index j, the pass for i has produced (i, i+1), ..., (i, j-1), and no pair when j <= i + 1. |
| Pairs.Upto | app.py:74-77 | Every pair produced before outer index i has a first index below i and a second index above the first and within range. |
| Pairs.Compare | app.py:79-91 | The record for (i, j) names file i as `file1` and file j as `file2`. It carries the cosine of their texts and their Jaccard score, which lies in [0, 1]. |
| Pairs.Records | app.py:86-91 | One record per pair, in the order of the pairs. |
| Pairs.Results | app.py:73-91 | The k-th result is the record of the k-th scheduled pair, and that pair has i < j within range. |
| Pairs.CompareAll | app.py:73-91 | The nested loops, skipping i >= j, build exactly the scheduled records: n(n-1)/2 of them. |
| Pairs.CompareWithLater | app.py:75-91 | The inner loop for i visits every j, skips j <= i, and appends the records of (i, i+1), ..., (i, n-1). |
| Pairs.ScheduleLength | app.py:74-77 | n documents yield n(n-1)/2 comparisons. |
| Pairs.ScheduleMembers | app.py:74-77 | The pair (i, j) is compared exactly when i < j < n. |
| Pairs.ScheduleSorted | app.py:74-77 | Comparisons come in strictly increasing lexicographic order of (i, j). |
| Pairs.ScheduleExactlyOnce | app.py:74-77 | Each pair i < j < n occurs exactly once. No other pair occurs, so there are no self-comparisons and no reversed pairs. |
| Pairs.ResultsShape | app.py:73-91 | There are n(n-1)/2 results. The k-th, for the k-th scheduled pair (i, j), has i < j, is named after files i and j, and has the cosine and Jaccard scores of their texts, the latter within [0, 1]. |
| Pairs.ResultsCoverEveryPair | app.py:73-91 | For every i < j < n, some result compares document i with document j. |
| Upload.Store | app.py:53-67 | The stored entry keeps the file name. Its text is normalised and has no capital. Its words are the lower-cased words of the extracted text. |
| Upload.Ingest | app.py:50-67 | One stored entry per upload, in upload order. Each entry is named after its upload and holds the normalised text extracted from it. |
| Upload.CheckUploadsShape | app.py:50-91 | m uploads give m(m-1)/2 records. The record for the scheduled pair (i, j) has i < j, names uploads i and j, and scores the Jaccard similarity of their normalised extracted texts, a value in [0, 1]. |
| Upload.NormalizedSimilarity | app.py:31-39 | The Jaccard score of two normalised texts is that of their lower-cased originals: case is already ignored and whitespace layout never counts. |
| Upload.DocxStored | app.py:59-60 | A ".docx" upload stores the lower-cased words of its paragraphs. |
| Upload.PdfStored | app.py:61-62 | A ".pdf" upload stores the lower-cased words of its pages that have text. |
| Upload.UnsupportedStored | app.py:63-66 | Any other upload stores the normalised placeholder text, whatever its content. |
| Upload.UnsupportedPairScoresOne | app.py:63-84 | Any two uploads of unsupported kinds score a Jaccard similarity of exactly 1 against each other, whatever their contents, because both store the same placeholder text and it has words. |

## Left out

- The Flask application is not modelled: routing, `home`, the 400 reply when no files are uploaded, `file.save`, the upload folder, `jsonify` and `render_template`. Neither is `static/script.js`. These are I/O and presentation.
- `secure_filename` is not modelled. The file names of `Extract.UploadedFile` are taken as already sanitised, because the function belongs to a library.
- Document parsing by python-docx and pdfplumber is a parameter (`Extract.Parsers`). Only what `app.py` does with their output is modelled.
- The TF-IDF cosine similarity (scikit-learn) is a parameter `cosine`. Its value is carried into each record unchanged.
- `round(x * 100, 2)` is not modelled. Both scores stay as exact unscaled reals, because rounding is floating-point presentation.
- The Jaccard quotient is exact rational division, not a floating-point division.
- The debug `print` of each extracted text is not modelled, because it is console output.
- Unicode is not modelled: whitespace is the ASCII set (code points 9 to 13, 28 to 31 and 32), and lower-casing moves only 'A'..'Z'. Python also treats non-ASCII characters such as U+00A0 as whitespace and lower-cases non-ASCII capitals. Here such characters are non-whitespace and left unchanged.
- Upload.UnsupportedStored: states that the stored text is the normalisation of "Unsupported file format" rather than the literal "unsupported file format". The verifier evaluates functions applied to a string literal step by step, and for this literal that takes several times the solver resource limit this project's proofs are kept under (2,000,000 units). The consequence that matters for the results, a score of 1 between any two unsupported uploads, is proved by Upload.UnsupportedPairScoresOne.
- The cosine function and the two document parsers are assumed to return for every input. In the program, three library calls can raise instead, and one raised exception ends the whole request with an error and no records:
  - `TfidfVectorizer().fit_transform` (app.py:80) raises when neither text has a token of two or more word characters, for example two PDFs without extractable text, which both normalise to the empty text;
  - `docx.Document` (app.py:16) raises on a malformed Word file;
  - `pdfplumber.open` (app.py:23) raises on a malformed PDF.
- Upload.CheckUploadsShape: describes only requests in which none of these calls raises. When one raises, the program returns no records at all.
- Pairs.CompareAll: takes the cosine as a total function, so it does not model the exception that ends the loop early.
- Upload.CheckUploads has no contract of its own. Its shape is stated by Upload.CheckUploadsShape.

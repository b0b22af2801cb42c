# Document-verification heuristics, modelled in Dafny

A model of the non-I/O logic of the `/api/verify` endpoint of the EduCred
back end (`backend/app.py`). An upload (an image or a PDF) is classified,
every page is normalised and run through OCR, the page texts are joined with
a `---PAGE---` marker, and the text is scored:

- the known issuer keywords it contains, sorted and without duplicates;
- whether it mentions a date;
- its word count;
- a trust score in [0, 100] computed from those three.

The OCR engine, the PDF rasteriser, the image decoder and SHA-256 are
function-typed parameters (`Pipeline.Services`).

Files, one module each:

- `wrappers.dfy`: `Option` and `Result`.
- `pystr.dfy`: the Python `str` built-ins the code uses: `lower`, `in`, `endswith`, `split()`, `strip()` and `join`, and `isspace` as the white-space set that `split()` and `strip()` separate on (the code never calls it directly). Each is defined on its own. `in`, `split()`, `strip()` and `join` have laws that characterise them. `endswith` is a plain predicate, whose meaning shows up in the contract of `Pipeline.IsPdf`.
- `pysort.dfy`: Python's ordering of strings, and `sorted()` of a set of strings.
- `heuristics.dfy`: `KNOWN_ISSUERS`, `detect_issuer_in_text`, `quick_trust_score`, the word list, the date flag and the snippet.
- `imaging.dfy`: the upscale arithmetic of `preprocess_for_ocr`.
- `pipeline.dfy`: `is_pdf`, the default file name, the page loop, the joined full text and the request body of `api_verify`.

Characters are Unicode scalar values, so a string's length is Python's
`len`. `isspace`, `lower` and `isdigit` are modelled exactly on
U+0000..U+00FF (Latin-1). Above U+00FF every character is treated as uncased,
as not white space and as not a digit.

Properties worth noting:

- Each page marker is a word of its own (`Pipeline.FullTextWordCount`). An N-page PDF therefore gets N-1 words more than its pages hold, and these count towards the 50-word bonus.
- A PDF that the rasteriser turns into zero pages gets `page_count` 0, because the loop at backend/app.py:163-172 runs zero times. The docstring at backend/app.py:135-141 promises no minimum (`Pipeline.Verify` states the count is the number of pages).
- One marker sits between each pair of consecutive pages, placed by position in the joined text before `strip()` (`PyStr.JoinLayout`). A page whose own text contains `---PAGE---` adds more occurrences of it to `full_text`.

## Model

| member | source | states |
|---|---|---|
| `PyStr.LowerIdempotent` | backend/app.py:98 | lower-casing twice gives the same string as lower-casing once |
| `PyStr.LowerSlice` | backend/app.py:154 | lower-casing commutes with slicing, so lower-casing the name then taking its suffix equals taking the suffix then lower-casing it |
| `PyStr.Lower` | backend/app.py:98 | `lower()` keeps the length, leaves no upper-case letter, and leaves every other character as it was |
| `PyStr.Contains` | backend/app.py:101 | `p in s` holds iff p occurs in s at some index |
| `PyStr.ContainsFirstChar` | backend/app.py:101 | a text containing a non-empty pattern contains the pattern's first character |
| `PyStr.RunLength` | backend/app.py:192 | the length of the longest prefix without white space: that prefix has no space and the next character is a space |
| `PyStr.Split` | backend/app.py:192 | `split()` with no separator: the maximal runs of non-white-space characters, in order (defined directly; see `SplitWord`, `SplitAllSpace`, `SplitAppendSpace`) |
| `PyStr.SplitTokens` | backend/app.py:192 | every token of `split()` is non-empty and has no white space |
| `PyStr.SplitAllSpace` | backend/app.py:192 | a string of white space has no tokens |
| `PyStr.SplitWord` | backend/app.py:192 | a non-empty string without white space is its own single token |
| `PyStr.RunLengthAppend` | backend/app.py:192 | the no-space prefix of `a + x` stops inside a, or continues into x when a has no space |
| `PyStr.SplitAppendSpace` | backend/app.py:192 | one white-space character separates the tokens on its two sides: `split(a + c + b) == split(a) + split(b)` |
| `PyStr.SplitConcatBefore` | backend/app.py:192 | splitting distributes over concatenation when the right part starts with a space |
| `PyStr.SplitConcatAfter` | backend/app.py:192 | splitting distributes over concatenation when the left part ends with a space |
| `PyStr.SplitSkipsLeadingSpace` | backend/app.py:192 | leading white space contributes no token |
| `PyStr.SplitSkipsTrailingSpace` | backend/app.py:192 | trailing white space contributes no token |
| `PyStr.SplitDropSpace` | backend/app.py:190-192 | dropping a prefix made only of white space leaves the tokens unchanged |
| `PyStr.SplitDropSpaceEnd` | backend/app.py:190-192 | dropping a suffix made only of white space leaves the tokens unchanged |
| `PyStr.TrimStart` | backend/app.py:190 | the result is a suffix of s, everything cut is white space, and the result does not start with a space |
| `PyStr.TrimEnd` | backend/app.py:190 | the result is a prefix of s, everything cut is white space, and the result does not end with a space |
| `PyStr.Strip` | backend/app.py:190 | the result is a slice of s with only white space around it, and it neither starts nor ends with a space |
| `PyStr.StripNoSpace` | backend/app.py:192 | `w.strip()` is w when w has no white space |
| `PyStr.SplitTrimStart` | backend/app.py:190-192 | `lstrip()` removes no token |
| `PyStr.SplitTrimEnd` | backend/app.py:190-192 | `rstrip()` removes no token |
| `PyStr.SplitStrip` | backend/app.py:190-192 | `strip()` removes no token: `split(strip(s)) == split(s)` |
| `PyStr.Join` | backend/app.py:190 | `sep.join(parts)` is empty for no parts, and every part fits inside it |
| `PyStr.JoinPartAt` | backend/app.py:190 | part i lies in the joined text at its offset |
| `PyStr.JoinSepBefore` | backend/app.py:190 | every part but the first has the separator just before it in the joined text |
| `PyStr.JoinLayout` | backend/app.py:190 | in the joined text every part sits at its offset, in order, with one separator just before every part but the first |
| `PyStr.JoinLength` | backend/app.py:190 | joined length = total length of the parts + (parts - 1) separator lengths |
| `PySort.BelowIrreflexive` | backend/app.py:103 | no string sorts before itself |
| `PySort.BelowTransitive` | backend/app.py:103 | the string order is transitive |
| `PySort.BelowTotal` | backend/app.py:103 | any two distinct strings are ordered one way or the other |
| `PySort.StrictlySortedDistinct` | backend/app.py:103 | a strictly sorted list has no duplicates |
| `PySort.Least` | backend/app.py:103 | returns an element of the set that sorts before every other element |
| `PySort.SortedSet` | backend/app.py:103 | `sorted(found)` is strictly increasing, holds exactly the elements of the set, and its length is the set's size |
| `Heuristics.IssuerMatchIgnoresCase` | backend/app.py:98-101 | issuer matching does not depend on the case of the text |
| `Heuristics.DetectIssuers` | backend/app.py:97-103 | the result is strictly sorted; a keyword is in it iff it is in `KNOWN_ISSUERS` and occurs in the lower-cased text; `None` or `""` gives `[]` |
| `Heuristics.TrustScore` | backend/app.py:105-112 | the score lies in [0, 100], and base plus bonuses never exceeds 100 |
| `Heuristics.QuickTrustScore` | backend/app.py:105-112 | the step-by-step score equals the clamped sum of base 30, +30 above 50 words, +min(30, 10·issuers), +10 for dates, and lies in [0, 100] |
| `Heuristics.RawScore` | backend/app.py:106-111 | the sum before the clamp never exceeds 100, and is at least the base 30 when the issuer count is not negative |
| `Heuristics.TrustScoreUnclamped` | backend/app.py:106-112 | for a non-negative issuer count the clamp does nothing and the score is at least 30 |
| `Heuristics.TrustScoreMonotone` | backend/app.py:105-112 | more words, more issuers or a date never lower the score |
| `Heuristics.TrustScoreIssuerCap` | backend/app.py:109 | three or more issuers all score the same |
| `Heuristics.TrustScoreFull` | backend/app.py:105-112 | the score is 100 iff there are more than 50 words, at least 3 issuers and a date |
| `Heuristics.TrustScoreWordsOnly` | backend/app.py:106-108 | more than 50 words with no issuer and no date score 60 |
| `Heuristics.TrustScoreClampsNegative` | backend/app.py:109-112 | an issuer count of -7 or less gives the score 0, whatever the word count and the date flag |
| `Heuristics.NonBlank` | backend/app.py:192 | the `if w.strip()` filter keeps at most as many tokens as it is given, each one of the given tokens with a non-empty strip |
| `Heuristics.Words` | backend/app.py:192 | every word is a token of `split()` whose strip is non-empty |
| `Heuristics.NonBlankKeepsWord` | backend/app.py:192 | the `if w.strip()` filter keeps a non-empty token without white space |
| `Heuristics.NonBlankKeepsWords` | backend/app.py:192 | the filter keeps every token of a list of such tokens |
| `Heuristics.WordsAreTokens` | backend/app.py:192-193 | the word list is exactly `split()`'s tokens, each non-empty and free of white space |
| `Heuristics.FourDigitValue` | backend/app.py:195 | `int(tok)` of four decimal digits is 1000·d0 + 100·d1 + 10·d2 + d3 |
| `Heuristics.AnyYear` | backend/app.py:195 | true iff some word is four decimal digits with a value in [1900, 2100] |
| `Heuristics.AnyPhrase` | backend/app.py:195 | true iff one of the phrases occurs in the text |
| `Heuristics.HasDates` | backend/app.py:195 | true iff some whitespace token is a year in [1900, 2100], or the lower-cased text holds "issued on", "date of" or "on:" |
| `Heuristics.HasDatesYear` | backend/app.py:195 | "1999" is dated |
| `Heuristics.HasDatesOutOfRange` | backend/app.py:195 | a lone "2150" is not dated |
| `Heuristics.NoDatePhraseIn` | backend/app.py:195 | a text of digits holds none of the date phrases |
| `Heuristics.HasDatesPhrase` | backend/app.py:195 | any text containing "issued on" is dated |
| `Heuristics.Snippet` | backend/app.py:191 | a text of at most 1000 characters is its own snippet; a longer one gives its first 1000 characters followed by "...", 1003 in all; never more than 1003 |
| `Heuristics.YearTokenAsWritten` | backend/app.py:195 | as written, a token makes `int()` raise exactly when it has four characters that all pass `isdigit()` but are not all decimal; on decimal tokens the answer is whether it is a year in [1900, 2100] |
| `Heuristics.AnyYearAsWritten` | backend/app.py:195 | the short-circuiting `any(...)` over the words fails only if one of the words makes `int()` raise |
| `Heuristics.HasDatesAsWritten` | backend/app.py:195 | the date flag as written fails only if some token of the text makes `int()` raise |
| `Heuristics.DateScanCrashes` | backend/app.py:195 | as written, the text "19²0" makes the date scan raise instead of answering |
| `Heuristics.AnyYearAsWrittenAgrees` | backend/app.py:195 | where the year scan as written answers, it agrees with `AnyYear`; it always answers on words without superscript digits |
| `Heuristics.HasDatesAsWrittenAgrees` | backend/app.py:195 | where the date flag as written answers, it agrees with `HasDates`; it always answers on a text without superscript digits |
| `Heuristics.SplitChars` | backend/app.py:192 | every character of a token is a character of the text |
| `Imaging.UpscaleFactor` | backend/app.py:60-64 | factor 1 when the longer side is at least `min_dim`; otherwise a factor of at least 2, the least whole factor that takes the longer side strictly past `min_dim` |
| `Imaging.UpscaleKeepsAspect` | backend/app.py:64 | scaling both sides by one factor keeps the aspect ratio and never shrinks a side |
| `Imaging.LongerScales` | backend/app.py:62-64 | the longer side of the enlarged image is the old longer side times the factor |
| `Imaging.Preprocess` | backend/app.py:57-66 | the prepared image keeps its source, and its sides are the old sides times `UpscaleFactor`, so it keeps the aspect ratio and never shrinks; a large image keeps its size; a small one ends with its longer side above `min_dim` |
| `Pipeline.IsPdf` | backend/app.py:154 | PDF iff the last four characters of the name, lower-cased, are ".pdf", or the first four bytes are `%PDF` |
| `Pipeline.IsPdfIgnoresCase` | backend/app.py:154 | the decision does not depend on the case of the file name |
| `Pipeline.IsPdfReadsHeaderOnly` | backend/app.py:154 | only the first four bytes of the content matter |
| `Pipeline.IsPdfExamples` | backend/app.py:154 | "SCAN.PDF" is a PDF; content that starts with `%PDF` is a PDF; "scan.png" with two bytes is not |
| `Pipeline.FileName` | backend/app.py:146 | the name is never empty: the given name if it is non-empty, otherwise "upload" |
| `Pipeline.ConfidencesBound` | backend/app.py:163-172 | at most one confidence per page is collected |
| `Pipeline.RecognizePages` | backend/app.py:163-172 | after the loop `page_count` equals the number of pages and the length of `texts`; page i's text is its OCR text, or "" when its OCR failed; the confidences are those reported, in page order |
| `Pipeline.FullTextOnePage` | backend/app.py:190 | one page's full text is that page's text, stripped |
| `Pipeline.MarkerIsAWord` | backend/app.py:190 | the page marker is non-empty and has no white space |
| `Pipeline.SplitSeparator` | backend/app.py:190-192 | the separator splits into the single token `---PAGE---` |
| `Pipeline.SplitJoinPages` | backend/app.py:190-192 | the joined pages have as many tokens as all the page texts together, plus one for each marker |
| `Pipeline.FullTextWordCount` | backend/app.py:190-193 | `word_count` of N pages equals the words on all pages plus N-1 |
| `Pipeline.FullText` | backend/app.py:190 | no pages give the empty text; the joined, stripped text neither starts nor ends with white space |
| `Pipeline.PagesOf` | backend/app.py:155-185 | an image upload yields at most one page; a PDF the rasteriser cannot convert yields none |
| `Pipeline.Score` | backend/app.py:190-197 | the report keeps the given name, digest, page count and confidences. Its full text is the stripped join of the page texts. Its snippet, word count, sorted issuers, corrected date flag and trust score are those of that full text (see Left out) |
| `Pipeline.Verify` | backend/app.py:142-210 | no upload gives the missing-file error. A PDF without pdf2image gives `pdf_uploaded_but_pdf2image_missing`. A PDF the rasteriser cannot convert gives `pdf_conversion_failed`. Bytes that do not decode give `cannot_read_image`. An image whose OCR fails gives `ocr_failed`. Every other upload succeeds; the date flag is the corrected one (see Left out). A success reports the default-filled name, the digest and the page count (1 for an image), the stripped join of the page texts, and the snippet, word count, sorted issuers, date flag, confidences and trust score of that text |

## Left out

- HTTP routing, the multipart request, JSON serialisation and status codes (backend/app.py:115-144, 199-214). A missing `file` field is modelled as an absent upload.
- Serving static files and the path-containment check (backend/app.py:115-130). These depend on the filesystem and `os.path`.
- EasyOCR (backend/app.py:21-28, 68-83). It is the `ocr` parameter, which returns `None` when recognition raises, including when the engine failed to initialise. How it joins detections and averages their confidences is not modelled.
- PDF rasterisation at 200 DPI (backend/app.py:85-89). It is the `rasterize` parameter. The `PDF2IMAGE_OK` flag is the `pdfSupport` parameter.
- Image decoding, grey-scale conversion, bicubic resizing and autocontrast (backend/app.py:53-66). These are pixel operations. Only the integer size arithmetic is modelled.
- SHA-256 (backend/app.py:49-51). It is the `digest` parameter.
- The mean OCR confidence (backend/app.py:82, 196). It is a floating-point average. The model keeps the list of confidences it is taken from.
- Tracebacks and the catch-all `internal_server_error` (backend/app.py:212-214). The date-scan crash listed under Findings is modelled apart from the request, by `Heuristics.HasDatesAsWritten`.
- Zero-sized images. `Imaging.Dim` is positive, because decoders and the rasteriser never produce an empty bitmap. In the source, an image with both sides 0 would raise a division by zero and end in `internal_server_error`.
- Unicode above U+00FF. Python's `lower`, `isspace` and `isdigit` know more characters than the model does. For example, Arabic-Indic digits are digits to `isdigit` and to `int`, but not in the model.
- Pipeline.Verify, Pipeline.Score: compute the date flag with the corrected `Heuristics.HasDates`. As written (backend/app.py:195, 212-214), a text with a four-character token of digits that includes a superscript digit, such as "19²0", ends the request in `internal_server_error` instead of a report, unless a year token in [1900, 2100] comes before it (the `any(...)` stops at the first year). `Heuristics.HasDatesAsWrittenAgrees` shows that the two flags agree on every text where the code as written answers.
- PyStr.Split: carries no contract of its own. It is pinned down by `PyStr.SplitWord`, `PyStr.SplitAllSpace` and `PyStr.SplitAppendSpace`, because a postcondition on it makes every proof about split texts much more expensive.
- PyStr.JoinLayout: places each page marker by position in the joined text before `strip()`. It does not count the marker's occurrences in `full_text`, because a page's own text may also contain the marker.

## Findings

| source | as written | input that shows it | evidently intended | confidence | as-written member | corrected member |
|---|---|---|---|---|---|---|
| backend/app.py:195 | `tok.isdigit()` accepts the superscript digits ¹ ² ³ (U+00B9, U+00B2, U+00B3), but `int(tok)` rejects them with `ValueError`. The exception escapes the date scan, and the request ends in `internal_server_error`. | a page whose text is "19²0" | a token that is not a decimal number is not a year, and the scan goes on | not executed; high | `Heuristics.DateScanCrashes` | `Heuristics.HasDates` |

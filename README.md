# Document classification core, modelled in Dafny

This project models the document-classification core of a small service that
guesses the type of an uploaded document. It covers:

- the `DocumentType` registry: four members, their string values, the lookup
  from a value back to its member, and `DOCUMENT_TO_INT_LABEL`;
- the upload check `allowed_file`;
- the filename heuristic `FilenameClassifier.classify`;
- the text extractor `OCRExtractor.extract_text` and
  `OCRExtractor.extract_all_documents`;
- the zero-shot classifier `ZeroShotClassifier.classify`.

The file system, the image-OCR engine and the zero-shot scoring pipeline are
parameters of the model. Text extraction takes them as an `Environment`
value. The scorer is a function from (text, candidate labels) to an optional
response whose `scores` and `labels` keys may each be missing.

Modules, one per file:

- `Wrappers`: `Option` and `Result`.
- `Paths`: a path as its string form, ASCII `lower()`, substring search,
  `rfind`, and the `name` and `suffix` of a path.
- `DocumentTypes`: the registry.
- `Upload`: `allowed_file`.
- `FilenameClassifier`: the heuristic. Its loop and its three overwriting
  `if`s are methods, specified by the priority function `Verdict`.
- `OcrExtractor`: the per-file dispatch is a function. The directory variant
  is a method whose loop is specified by `ExtractEach`. A Python dict with
  its insertion order is a sequence of (path, text) entries with distinct
  keys (`TextPerFile`).
- `ZeroShotClassifier`: the loop of `classify` is a method.
  - `Run` specifies it. `Run` carries three things from one file to the next:
    the outputs, the label list (the source rebinds it), and a log of the
    scoring calls.
  - Exceptions that escape `classify` are `Failure` results: `max` of an
    empty list, an index past the label list, and a label that names no
    member.

Two behaviours of the code worth noting:

- `extract_all_documents` lets the first per-file error escape, and it globs
  `**/*` recursively.
- A name carrying both "invoice" and "bank_statement" is an INVOICE, because
  the "invoice" test runs last and overwrites.

## Model

| member | source | states |
|---|---|---|
| DocumentTypes.FromValue | src/types/document_type.py:4-8 | `DocumentType(s)` finds the member whose value is `s`, and fails exactly when no member has that value |
| DocumentTypes.MembersEnumerateAll | src/types/document_type.py:4-8 | the enumeration lists exactly four members, each once, and every member is among them |
| DocumentTypes.ValueInjective | src/types/document_type.py:5-8 | distinct members have distinct values |
| DocumentTypes.FromValueInvertsValue | src/types/document_type.py:5-8 | looking a member up by its own value gives that member back |
| DocumentTypes.UnknownLabelHasNoMember | src/types/document_type.py:5 | UNKNOWN's value is "other", so the label "unknown" names no member |
| DocumentTypes.IntLabelValues | src/types/document_type.py:10 | `DOCUMENT_TO_INT_LABEL` gives UNKNOWN 0, DRIVERS_LICENSE 1, BANK_STATEMENT 2 and INVOICE 3 |
| DocumentTypes.IntLabelIsDeclarationIndex | src/types/document_type.py:10 | `DOCUMENT_TO_INT_LABEL` is total and injective, and gives each member its index in declaration order |
| Upload.RSplitOnce | src/app.py:12 | `rsplit(sep, 1)` returns the whole string when there is no separator; otherwise it returns two parts around the last separator, and the second part has no separator |
| Upload.AllowedFile | src/app.py:11-12 | `allowed_file` itself; what it accepts is stated by AllowedFileMeaning, AllowedFileAt and AllowedFileIgnoresCase |
| Upload.AllowedFileMeaning | src/app.py:11-12 | a name is accepted exactly when it has a last '.' and the lower-cased text after it is "pdf", "png" or "jpg" |
| Upload.AllowedFileAt | src/app.py:12 | once the last '.' is known, acceptance depends only on the text after it |
| Upload.AllowedFileIgnoresCase | src/app.py:12 | a name and its lower-case form are accepted or refused together |
| Upload.AcceptedExamples | tests/test_app.py:18-26 | "file.pdf", "file.png" and "file.jpg" are accepted |
| Upload.RejectedExamples | tests/test_app.py:22-23 | "file.txt" and "file" are refused |
| Upload.LastDotExamples | src/app.py:12 | only the last extension counts: "a.txt.pdf" is accepted and "a.pdf.txt" is refused |
| Upload.TrailingDotExample | src/app.py:12 | "a.", whose extension is empty, is refused |
| Upload.CaseInsensitiveExample | src/app.py:12 | "FILE.PDF" is accepted |
| FilenameClassifier.ResultClass | src/classifier/filename_classifier.py:13-24 | the three overwriting tests on the lower-cased path give the priority verdict: invoice, then bank_statement, then drivers_license, else UNKNOWN |
| FilenameClassifier.Classify | src/classifier/filename_classifier.py:10-28 | the output has one key per distinct input path, and each value is that path's own verdict |
| FilenameClassifier.NoMarkerIsUnknown | src/classifier/filename_classifier.py:15-26 | a path with none of the three markers is UNKNOWN |
| FilenameClassifier.InvoiceWins | src/classifier/filename_classifier.py:23-24 | a path containing "invoice" is INVOICE, whatever else it contains |
| FilenameClassifier.BankStatementUnlessInvoice | src/classifier/filename_classifier.py:20-24 | "bank_statement" without "invoice" gives BANK_STATEMENT |
| FilenameClassifier.DriversLicenseAlone | src/classifier/filename_classifier.py:17-24 | "drivers_license" with neither other marker gives DRIVERS_LICENSE |
| FilenameClassifier.VerdictIgnoresCase | src/classifier/filename_classifier.py:13 | a path and its lower-case form get the same verdict |
| FilenameClassifier.DirectoryMarkerCounts | src/classifier/filename_classifier.py:13 | the whole path string is searched, so a marker in a directory component decides |
| FilenameClassifier.MixedMarkersExample | src/classifier/filename_classifier.py:20-24 | "invoice_bank_statement.pdf" is INVOICE |
| Paths.Suffix | src/feature_extraction/ocr_extractor.py:31-36 | when the final path component's last '.' is neither its first nor its last character, the suffix is the component from that '.' on; otherwise it is "" |
| OcrExtractor.Put | src/feature_extraction/ocr_extractor.py:64 | a dict assignment keeps the keys distinct and adds the key; a new key goes last; the key maps to the new text and every other entry stays |
| OcrExtractor.ExtractText | src/feature_extraction/ocr_extractor.py:16-36 | a missing path raises FileNotFoundError; text comes back only for an existing file with an image or PDF suffix; ValueError for the suffix comes exactly when the file exists and its lower-cased suffix is neither an image type nor ".pdf" (the routing of each case is stated by the four lemmas below) |
| OcrExtractor.MissingPathRaisesFirst | src/feature_extraction/ocr_extractor.py:26-27 | a missing path raises FileNotFoundError before its suffix is looked at |
| OcrExtractor.ImageSuffixRoutesToOcr | src/feature_extraction/ocr_extractor.py:31-32 | an existing file with an image suffix, in any case, gets the image OCR's text; an OCR error escapes |
| OcrExtractor.PdfSuffixGivesEmptyText | src/feature_extraction/ocr_extractor.py:33-34 | an existing ".pdf" file, in any case, gets "" from the PDF extractor |
| OcrExtractor.OtherSuffixUnsupported | src/feature_extraction/ocr_extractor.py:35-36 | any other suffix raises ValueError naming the suffix as written |
| OcrExtractor.TextFileUnsupported | tests/feature_extraction/test_ocr_extractor.py:21-25 | an existing "requirements.txt" raises ValueError for ".txt" |
| OcrExtractor.ExtractEach | src/feature_extraction/ocr_extractor.py:57-64 | a completed run yields a dict with distinct keys |
| OcrExtractor.ExtractAllDocuments | src/feature_extraction/ocr_extractor.py:39-68 | a missing directory raises FileNotFoundError, then a non-directory raises ValueError, and otherwise the loop over the globbed paths gives exactly the run `ExtractEach` describes |
| OcrExtractor.ExtractEachFailurePersists | src/feature_extraction/ocr_extractor.py:62-64 | once one path has raised, the whole call raises that error |
| OcrExtractor.ExtractEachSucceedsIffAll | src/feature_extraction/ocr_extractor.py:62-64 | the directory loop completes exactly when every globbed path extracts |
| OcrExtractor.ExtractEachKeys | src/feature_extraction/ocr_extractor.py:57-68 | a completed result has exactly one key per distinct globbed path |
| OcrExtractor.ExtractEachValues | src/feature_extraction/ocr_extractor.py:63-64 | every entry of a completed result holds `extract_text` of its key |
| OcrExtractor.ExtractEachFirstError | src/feature_extraction/ocr_extractor.py:62-64 | a failed call raises the error of the first path that does not extract, and all earlier paths extracted |
| ZeroShotClassifier.CandidateLabelsInOrder | src/classifier/zero_shot_classifier.py:43 | the first label list is "other", "drivers_license", "bank_statement", "invoice", in declaration order |
| ZeroShotClassifier.Max | src/classifier/zero_shot_classifier.py:72 | `max(scores)` is one of the scores and is at least every score |
| ZeroShotClassifier.IndexOf | src/classifier/zero_shot_classifier.py:72 | `scores.index(x)` is the first position holding `x` |
| ZeroShotClassifier.ArgMaxIsFirstMax | src/classifier/zero_shot_classifier.py:72 | `scores.index(max(scores))` holds a highest score, and every earlier score is lower |
| ZeroShotClassifier.FirstMaxUnique | src/classifier/zero_shot_classifier.py:72 | only one position is the first highest score |
| ZeroShotClassifier.Predict | src/classifier/zero_shot_classifier.py:69-78 | empty scores raise; otherwise, with `i` the first highest score, the prediction succeeds exactly when `i` indexes the labels and that label names a member, and the prediction's value is that label |
| ZeroShotClassifier.BankStatementExample | tests/classifier/test_zero_shot_classifier.py:25-28 | scores [0, 0.4, 0.6] with labels "unknown", "drivers_license", "bank_statement" predict BANK_STATEMENT |
| ZeroShotClassifier.FileVerdict | src/classifier/zero_shot_classifier.py:48-78 | for one file: empty text is UNKNOWN and keeps the labels; a malformed response is UNKNOWN and keeps the labels; otherwise the response's labels replace the list, and the prediction decides the verdict or the error |
| ZeroShotClassifier.Classify | src/classifier/zero_shot_classifier.py:29-82 | `classify` returns or raises what `ClassifySpec` gives; a failed extraction maps every input file to UNKNOWN with no exception; a completed loop has exactly the extracted dict's keys |
| ZeroShotClassifier.RunFailurePersists | src/classifier/zero_shot_classifier.py:72-78 | an exception at one file ends `classify` with that exception |
| ZeroShotClassifier.Step | src/classifier/zero_shot_classifier.py:47-78 | one iteration of the loop; what it writes is stated by StepOutputs and StepKeys |
| ZeroShotClassifier.StepOutputs | src/classifier/zero_shot_classifier.py:47-78 | an iteration that does not raise records the file's verdict under its own path |
| ZeroShotClassifier.StepKeys | src/classifier/zero_shot_classifier.py:47-78 | an iteration that does not raise defines its own path and leaves every other output as it was |
| ZeroShotClassifier.Run | src/classifier/zero_shot_classifier.py:45-78 | a completed loop has one output per extracted file and nothing else; its other properties are stated by the Run lemmas below |
| ZeroShotClassifier.ClassifySpec | src/classifier/zero_shot_classifier.py:33-82 | a failed extraction gives UNKNOWN for every input file and nothing escapes; a completed loop has exactly the extracted dict's keys |
| ZeroShotClassifier.Malformed | src/classifier/zero_shot_classifier.py:62 | the response test; its effect is stated by FileVerdict, MalformedResponseIsUnknown and MissingLabelsExample |
| ZeroShotClassifier.RunPrefixSucceeds | src/classifier/zero_shot_classifier.py:47-78 | if the loop completes, it also completes over every prefix of the files |
| ZeroShotClassifier.RunEntryVerdict | src/classifier/zero_shot_classifier.py:47-78 | each file's output is its own verdict, given its text and the labels held when the loop reached it; later files never overwrite it |
| ZeroShotClassifier.EmptyTextIsUnknown | src/classifier/zero_shot_classifier.py:48-51 | a file with empty text is UNKNOWN |
| ZeroShotClassifier.MalformedResponseIsUnknown | src/classifier/zero_shot_classifier.py:62-65 | a file whose response is missing, or lacks 'scores' or 'labels', is UNKNOWN |
| ZeroShotClassifier.ScoredFileGetsTopLabel | src/classifier/zero_shot_classifier.py:69-78 | a scored file's output has as its value the response's label at the first highest score |
| ZeroShotClassifier.RunCallsChained | src/classifier/zero_shot_classifier.py:43-70 | only non-empty texts reach the scorer; the first call gets the candidate labels; each later call gets the labels of the latest well-formed response, or the previous call's labels when that response was malformed |
| ZeroShotClassifier.RunSucceedsForEchoingScorer | src/classifier/zero_shot_classifier.py:57-78 | nothing escapes the loop when every response holds its candidate labels in some order and at least one score, with no more scores than labels |
| ZeroShotClassifier.ScoredFileExample | tests/classifier/test_zero_shot_classifier.py:20-42 | one file with text, scored by the test response, is BANK_STATEMENT |
| ZeroShotClassifier.ExtractionFailureExample | tests/classifier/test_zero_shot_classifier.py:44-60 | when extraction raises, "test.pdf" is UNKNOWN |
| ZeroShotClassifier.EmptyTextExample | tests/classifier/test_zero_shot_classifier.py:62-79 | a file with empty text is UNKNOWN, whatever the scorer |
| ZeroShotClassifier.MissingLabelsExample | tests/classifier/test_zero_shot_classifier.py:81-103 | a response without 'labels' leaves the file UNKNOWN |
| ZeroShotClassifier.AsWrittenEveryFileUnknown | src/classifier/zero_shot_classifier.py:33-41 | with the extraction call as written, every input file is UNKNOWN, and the map is empty for no files |
| ZeroShotClassifier.AsWrittenMissesScoredImage | src/classifier/zero_shot_classifier.py:35 | for an image whose text the test response scores as a bank statement, the code as written says UNKNOWN and the intended extraction says BANK_STATEMENT |
| ZeroShotClassifier.IntendedExtraction | src/classifier/zero_shot_classifier.py:33-35 | the intended extraction fails exactly when some input file does not extract; otherwise it has one entry per input file, holding that file's text |
| ZeroShotClassifier.IntendedClassifyCoversEveryFile | src/classifier/zero_shot_classifier.py:33-82 | with the intended extraction, a `classify` that returns has exactly one output per input file |
| ZeroShotClassifier.ClassifyDocuments | src/classifier/zero_shot_classifier.py:29-82 | `classify` with the intended extraction: one output per input file when nothing escapes, and all UNKNOWN when some file does not extract |

## Left out

- The Flask route `classify_file_route` (src/app.py:14-38) is HTTP plumbing. It also disagrees with the types: it passes one `Path` as `files`, and it reads an `output_class` field that does not exist.
- The image-OCR backend (pytesseract and PIL) is the `imageOcr` field of `Environment`. An image it cannot read shows up as `ImageOcrFailed`.
- The zero-shot pipeline and the model loading in `ZeroShotClassifier.__init__` are the `Scorer` parameter. The pipeline's own behaviour is not modelled.
- File-system calls (`exists`, `is_dir`, `glob('**/*')`) are fields of `Environment`.
- The image suffix set comes from `src/constants`, which is not part of this model. It is the `imageTypes` field.
- Logging is not modelled.
- The `Classifier` base class (src/classifier/__init__.py) is not modelled. Each classifier's `classify` is a method of its own module.
- `src/local_eval.py`, the dataset loaders and the `__main__` blocks are not modelled.
- Paths are their string form. pathlib normalisation is not modelled, such as dropping a trailing '/' or collapsing "a//b".
- `str.lower()` is ASCII: only 'A'-'Z' are mapped. Unicode case mapping is not modelled.
- Scores are `real`. Float rounding and NaN are not modelled; only comparison matters here.
- A Python dict's iteration order is modelled only for the extracted texts, which are an ordered entry list. The outputs of `classify` are a `map`, so their insertion order is not modelled.
- OcrExtractor.ExtractAllDocuments calls `extract_text` twice per path and keeps the second result. Extraction is a pure function of the environment here, so the two calls agree. A nondeterministic OCR engine that answers differently on the second call is not modelled.
- ZeroShotClassifier.Classify takes the extraction outcome as a parameter, so it covers every outcome, including the one the code as written always produces (see Findings).

## Findings

| source | as written | input that shows it | evidently intended | confidence | as-written member | corrected member |
|---|---|---|---|---|---|---|
| src/classifier/zero_shot_classifier.py:35 | The extraction call reads `input.dir_path`, but the input record has only `files`. It also passes `paths_list` and `dir_path` keywords, but `extract_all_documents` takes only `dir_path`. So the call raises on every input, the handler catches it, and every file is UNKNOWN. | files `["test.png"]`, where the image's text is scored [0, 0.4, 0.6] over "unknown", "drivers_license", "bank_statement" | extract the text of each input file, with errors still caught by the handler; the test response then gives BANK_STATEMENT | not executed | ZeroShotClassifier.ExtractionAsWritten, shown by ZeroShotClassifier.AsWrittenMissesScoredImage | ZeroShotClassifier.IntendedExtraction, with ZeroShotClassifier.IntendedClassifyCoversEveryFile and ZeroShotClassifier.ClassifyDocuments |

/** The zero-shot classifier: per file, the extracted text is scored against
    candidate labels and the label with the highest score becomes the file's
    document type; an extraction failure, an empty text or a malformed scoring
    response falls back to UNKNOWN. The extraction outcome and the scoring
    pipeline are inputs of the model. */
module ZeroShotClassifier {
  import opened Wrappers
  import opened Paths
  import opened DocumentTypes
  import OcrExtractor

  /** What the scoring pipeline returns for one text: a dict that may lack its
      'scores' or its 'labels' key (`None` here). */
  datatype Response = Response(scores: Option<seq<real>>, labels: Option<seq<string>>)

  /** The zero-shot pipeline: text and candidate labels in, a response or
      nothing (an empty or absent result) out. */
  type Scorer = (string, seq<string>) -> Option<Response>

  /** The outcome of the extraction call: it raised, or it gave the text of
      each file as an insertion-ordered dict. */
  datatype Extraction = Failed | Texts(textPerFile: OcrExtractor.TextPerFile)

  /** The exceptions that escape `classify`: `max` of an empty score list, an
      index past the end of the label list, a label that names no member. */
  datatype ClassifyError = EmptyScores | LabelIndexOutOfRange(index: nat) | NotADocumentType(value: string)

  /** The state the loop carries from file to file: the outputs so far, the
      label list the next scoring call receives, and the scoring calls made so
      far, each as (text, candidate labels). */
  datatype Progress = Progress(outputs: map<Path, DocumentType>, labels: seq<string>, calls: seq<(string, seq<string>)>)

  /** `[doc_type.value for doc_type in DocumentType]`. */
  function CandidateLabels(): seq<string> {
    seq(|Members|, i requires 0 <= i < |Members| => Value(Members[i]))
  }

  /** The first candidate list is the four values in declaration order, the
      fallback's value "other" first. */
  lemma CandidateLabelsInOrder()
    ensures CandidateLabels() == ["other", "drivers_license", "bank_statement", "invoice"]
  {
  }

  /** `not result or 'scores' not in result or 'labels' not in result`. */
  predicate Malformed(result: Option<Response>) {
    result.None? || result.value.scores.None? || result.value.labels.None?
  }

  /** `max(scores)`. */
  function Max(s: seq<real>): (m: real)
    requires |s| > 0
    ensures m in s
    ensures forall j :: 0 <= j < |s| ==> s[j] <= m
    decreases |s|
  {
    if |s| == 1 then s[0]
    else
      var rest := Max(s[1..]);
      if s[0] >= rest then s[0] else rest
  }

  /** `s.index(x)`: the first position holding `x`. */
  function IndexOf(s: seq<real>, x: real): (i: nat)
    requires x in s
    ensures i < |s| && s[i] == x
    ensures forall j :: 0 <= j < i ==> s[j] != x
    decreases |s|
  {
    if s[0] == x then 0 else 1 + IndexOf(s[1..], x)
  }

  /** `i` holds a highest score and no earlier position does. */
  predicate IsFirstMax(s: seq<real>, i: int) {
    && 0 <= i < |s|
    && (forall j :: 0 <= j < |s| ==> s[j] <= s[i])
    && (forall j :: 0 <= j < i ==> s[j] < s[i])
  }

  /** `scores.index(max(scores))` is the first position of a highest score. */
  lemma ArgMaxIsFirstMax(s: seq<real>)
    requires |s| > 0
    ensures IsFirstMax(s, IndexOf(s, Max(s)))
  {
  }

  /** At most one position is the first highest. */
  lemma FirstMaxUnique(s: seq<real>, i: int, k: int)
    requires IsFirstMax(s, i) && IsFirstMax(s, k)
    ensures i == k
  {
    assert s[i] == s[k];
  }

  /** The prediction from a well-formed response: the label at the first
      highest score, looked up as a member. */
  function Predict(scores: seq<real>, labels: seq<string>): (r: Result<DocumentType, ClassifyError>)
    ensures |scores| == 0 <==> r == Failure(EmptyScores)
    ensures forall i :: IsFirstMax(scores, i) ==>
              && (r.Success? <==> i < |labels| && FromValue(labels[i]).Some?)
              && (r.Success? ==> Value(r.value) == labels[i])
  {
    if |scores| == 0 then Failure(EmptyScores)
    else
      var maxScoreIndex := IndexOf(scores, Max(scores));
      ArgMaxIsFirstMax(scores);
      assert forall i :: IsFirstMax(scores, i) ==> i == maxScoreIndex by {
        forall i | IsFirstMax(scores, i) ensures i == maxScoreIndex {
          FirstMaxUnique(scores, i, maxScoreIndex);
        }
      }
      if maxScoreIndex >= |labels| then Failure(LabelIndexOutOfRange(maxScoreIndex))
      else
        match FromValue(labels[maxScoreIndex])
        case Some(t) => Success(t)
        case None => Failure(NotADocumentType(labels[maxScoreIndex]))
  }

  /** The scores [0, 0.4, 0.6] against the labels "unknown", "drivers_license",
      "bank_statement" predict BANK_STATEMENT. */
  lemma BankStatementExample()
    ensures Predict([0.0, 0.4, 0.6], ["unknown", "drivers_license", "bank_statement"]) == Success(BankStatement)
  {
    assert IsFirstMax([0.0, 0.4, 0.6], 2);
  }

  /** One file's verdict and the label list the next call receives: an empty
      text or a malformed response gives UNKNOWN and keeps the labels; otherwise
      the response's labels replace them and decide the prediction. */
  function FileVerdict(text: string, labels: seq<string>, scorer: Scorer): (r: Result<(DocumentType, seq<string>), ClassifyError>)
    ensures text == "" ==> r == Success((Unknown, labels))
    ensures text != "" && Malformed(scorer(text, labels)) ==> r == Success((Unknown, labels))
    ensures text != "" && !Malformed(scorer(text, labels)) ==>
              var response := scorer(text, labels).value;
              && (r.Success? <==> Predict(response.scores.value, response.labels.value).Success?)
              && (r.Success? ==> r.value == (Predict(response.scores.value, response.labels.value).value, response.labels.value))
  {
    if text == "" then Success((Unknown, labels))
    else
      var result := scorer(text, labels);
      if Malformed(result) then Success((Unknown, labels))
      else
        var newLabels := result.value.labels.value;
        match Predict(result.value.scores.value, newLabels)
        case Failure(e) => Failure(e)
        case Success(t) => Success((t, newLabels))
  }

  /** One iteration of the loop over the extracted texts. */
  function Step(progress: Progress, path: Path, text: string, scorer: Scorer): Result<Progress, ClassifyError> {
    var calls := if text == "" then progress.calls else progress.calls + [(text, progress.labels)];
    match FileVerdict(text, progress.labels, scorer)
    case Failure(e) => Failure(e)
    case Success((t, labels)) => Success(Progress(progress.outputs[path := t], labels, calls))
  }

  /** The loop over `textPerFile` in insertion order; the first error ends it. */
  function Run(textPerFile: OcrExtractor.TextPerFile, scorer: Scorer): (r: Result<Progress, ClassifyError>)
    ensures r.Success? ==> r.value.outputs.Keys == OcrExtractor.Keys(textPerFile)
    decreases |textPerFile|
  {
    if textPerFile == [] then Success(Progress(map[], CandidateLabels(), []))
    else
      var init := textPerFile[..|textPerFile| - 1];
      var (path, text) := textPerFile[|textPerFile| - 1];
      KeysSnoc(init, (path, text));
      assert init + [(path, text)] == textPerFile;
      match Run(init, scorer)
      case Failure(e) => Failure(e)
      case Success(progress) => Step(progress, path, text, scorer)
  }

  /** What `classify` returns or raises. */
  function ClassifySpec(files: seq<Path>, extraction: Extraction, scorer: Scorer): (r: Result<map<Path, DocumentType>, ClassifyError>)
    ensures extraction.Failed? ==> r.Success? && r.value.Keys == set f | f in files
    ensures extraction.Failed? ==> forall f :: f in r.value ==> r.value[f] == Unknown
    ensures extraction.Texts? && r.Success? ==> r.value.Keys == OcrExtractor.Keys(extraction.textPerFile)
  {
    match extraction
    case Failed => Success(map f | f in files :: Unknown)
    case Texts(textPerFile) =>
      match Run(textPerFile, scorer)
      case Failure(e) => Failure(e)
      case Success(progress) => Success(progress.outputs)
  }

  /** `ZeroShotClassifier.classify`: when extraction raised, every input file
      is UNKNOWN and nothing escapes; otherwise one entry per extracted file. */
  method Classify(files: seq<Path>, extraction: Extraction, scorer: Scorer)
    returns (r: Result<map<Path, DocumentType>, ClassifyError>)
    ensures r == ClassifySpec(files, extraction, scorer)
    ensures extraction.Failed? ==> r.Success? && r.value.Keys == set f | f in files
    ensures extraction.Failed? ==> forall f :: f in r.value ==> r.value[f] == Unknown
    ensures extraction.Texts? && r.Success? ==> r.value.Keys == OcrExtractor.Keys(extraction.textPerFile)
  {
    if extraction.Failed? {
      return Success(map f | f in files :: Unknown);
    }
    var textPerFile := extraction.textPerFile;
    var labels := CandidateLabels();
    var outputsPerFile: map<Path, DocumentType> := map[];
    ghost var calls: seq<(string, seq<string>)> := [];
    for i := 0 to |textPerFile|
      invariant Run(textPerFile[..i], scorer) == Success(Progress(outputsPerFile, labels, calls))
    {
      var (filePath, text) := textPerFile[i];
      RunStep(textPerFile, i, scorer);
      if text == "" {
        outputsPerFile := outputsPerFile[filePath := Unknown];
        continue;
      }
      var result := scorer(text, labels);
      calls := calls + [(text, labels)];
      if Malformed(result) {
        outputsPerFile := outputsPerFile[filePath := Unknown];
        continue;
      }
      var scores := result.value.scores.value;
      labels := result.value.labels.value;
      if |scores| == 0 {
        RunFailurePersists(textPerFile, i + 1, scorer);
        return Failure(EmptyScores);
      }
      var maxScoreIndex := IndexOf(scores, Max(scores));
      if maxScoreIndex >= |labels| {
        RunFailurePersists(textPerFile, i + 1, scorer);
        return Failure(LabelIndexOutOfRange(maxScoreIndex));
      }
      var predLabel := labels[maxScoreIndex];
      var predicted := FromValue(predLabel);
      if predicted.None? {
        RunFailurePersists(textPerFile, i + 1, scorer);
        return Failure(NotADocumentType(predLabel));
      }
      outputsPerFile := outputsPerFile[filePath := predicted.value];
    }
    assert textPerFile[..|textPerFile|] == textPerFile;
    r := Success(outputsPerFile);
  }

  /** One more file: the run over the longer prefix is one step past the shorter one. */
  lemma RunStep(textPerFile: OcrExtractor.TextPerFile, i: nat, scorer: Scorer)
    requires i < |textPerFile|
    ensures Run(textPerFile[..i + 1], scorer) ==
              match Run(textPerFile[..i], scorer)
              case Failure(e) => Failure(e)
              case Success(progress) => Step(progress, textPerFile[i].0, textPerFile[i].1, scorer)
  {
    assert textPerFile[..i + 1][..i] == textPerFile[..i];
  }

  /** Once a prefix has raised, the whole loop raises the same error. */
  lemma {:induction false} RunFailurePersists(textPerFile: OcrExtractor.TextPerFile, k: nat, scorer: Scorer)
    requires k <= |textPerFile|
    requires Run(textPerFile[..k], scorer).Failure?
    ensures Run(textPerFile, scorer) == Run(textPerFile[..k], scorer)
    decreases |textPerFile| - k
  {
    if k < |textPerFile| {
      RunStep(textPerFile, k, scorer);
      RunFailurePersists(textPerFile, k + 1, scorer);
    } else {
      assert textPerFile[..k] == textPerFile;
    }
  }

  /** Appending an entry adds its key. */
  lemma KeysSnoc(d: OcrExtractor.TextPerFile, e: (Path, string))
    ensures OcrExtractor.Keys(d + [e]) == OcrExtractor.Keys(d) + {e.0}
  {
  }

  /** Every prefix of a loop that completes completes too. */
  lemma RunPrefixSucceeds(textPerFile: OcrExtractor.TextPerFile, k: nat, scorer: Scorer)
    requires k <= |textPerFile| && Run(textPerFile, scorer).Success?
    ensures Run(textPerFile[..k], scorer).Success?
  {
    if Run(textPerFile[..k], scorer).Failure? {
      RunFailurePersists(textPerFile, k, scorer);
    }
  }

  /** `outputs` holds, under the entry's path, the verdict on the entry's text
      given `labels`. */
  predicate RecordsVerdict(outputs: map<Path, DocumentType>, entry: (Path, string), labels: seq<string>, scorer: Scorer) {
    && FileVerdict(entry.1, labels, scorer).Success?
    && entry.0 in outputs
    && outputs[entry.0] == FileVerdict(entry.1, labels, scorer).value.0
  }

  /** Each file's output is its own verdict, given its text and the label list
      the loop holds when it reaches that file; later files do not overwrite it. */
  lemma RunEntryVerdict(textPerFile: OcrExtractor.TextPerFile, i: nat, scorer: Scorer)
    requires OcrExtractor.DistinctKeys(textPerFile)
    requires i < |textPerFile| && Run(textPerFile, scorer).Success?
    ensures Run(textPerFile[..i], scorer).Success?
    ensures RecordsVerdict(Run(textPerFile, scorer).value.outputs, textPerFile[i], Run(textPerFile[..i], scorer).value.labels, scorer)
  {
    assert textPerFile[..|textPerFile|] == textPerFile;
    RunPrefixSucceeds(textPerFile, i + 1, scorer);
    RunStep(textPerFile, i, scorer);
    StepOutputs(Run(textPerFile[..i], scorer).value, textPerFile[i].0, textPerFile[i].1, scorer);
    RunKeepsEntry(textPerFile, i, |textPerFile|, scorer);
  }

  /** Once file `i` has its output, the later files leave it alone. */
  lemma {:induction false} RunKeepsEntry(textPerFile: OcrExtractor.TextPerFile, i: nat, m: nat, scorer: Scorer)
    requires OcrExtractor.DistinctKeys(textPerFile)
    requires i < m <= |textPerFile| && Run(textPerFile[..m], scorer).Success?
    ensures Run(textPerFile[..i + 1], scorer).Success?
    ensures textPerFile[i].0 in Run(textPerFile[..i + 1], scorer).value.outputs
    ensures textPerFile[i].0 in Run(textPerFile[..m], scorer).value.outputs
    ensures Run(textPerFile[..m], scorer).value.outputs[textPerFile[i].0]
            == Run(textPerFile[..i + 1], scorer).value.outputs[textPerFile[i].0]
    decreases m
  {
    RunStep(textPerFile, m - 1, scorer);
    var progress := Run(textPerFile[..m - 1], scorer).value;
    var (path, text) := textPerFile[m - 1];
    StepKeys(progress, path, text, scorer, textPerFile[i].0);
    if i < m - 1 {
      RunKeepsEntry(textPerFile, i, m - 1, scorer);
      assert textPerFile[i].0 != path;
    }
  }

  /** A successful step defines its own path and keeps every other output. */
  lemma StepKeys(progress: Progress, path: Path, text: string, scorer: Scorer, q: Path)
    requires Step(progress, path, text, scorer).Success?
    ensures path in Step(progress, path, text, scorer).value.outputs
    ensures q != path && q in progress.outputs ==>
              q in Step(progress, path, text, scorer).value.outputs
              && Step(progress, path, text, scorer).value.outputs[q] == progress.outputs[q]
  {
  }

  /** A successful step records the file's verdict under its path. */
  lemma StepOutputs(progress: Progress, path: Path, text: string, scorer: Scorer)
    requires Step(progress, path, text, scorer).Success?
    ensures RecordsVerdict(Step(progress, path, text, scorer).value.outputs, (path, text), progress.labels, scorer)
  {
  }

  /** A file whose extracted text is empty is UNKNOWN. */
  lemma EmptyTextIsUnknown(textPerFile: OcrExtractor.TextPerFile, i: nat, scorer: Scorer)
    requires OcrExtractor.DistinctKeys(textPerFile)
    requires i < |textPerFile| && Run(textPerFile, scorer).Success? && textPerFile[i].1 == ""
    ensures textPerFile[i].0 in Run(textPerFile, scorer).value.outputs
    ensures Run(textPerFile, scorer).value.outputs[textPerFile[i].0] == Unknown
  {
    RunEntryVerdict(textPerFile, i, scorer);
  }

  /** A file whose scoring response is missing, or lacks 'scores' or 'labels', is UNKNOWN. */
  lemma MalformedResponseIsUnknown(textPerFile: OcrExtractor.TextPerFile, i: nat, scorer: Scorer)
    requires OcrExtractor.DistinctKeys(textPerFile)
    requires i < |textPerFile| && Run(textPerFile, scorer).Success?
    requires Run(textPerFile[..i], scorer).Success?
    requires Malformed(scorer(textPerFile[i].1, Run(textPerFile[..i], scorer).value.labels))
    ensures textPerFile[i].0 in Run(textPerFile, scorer).value.outputs
    ensures Run(textPerFile, scorer).value.outputs[textPerFile[i].0] == Unknown
  {
    RunEntryVerdict(textPerFile, i, scorer);
  }

  /** A file with text and a well-formed response gets the member named by the
      response's label at the first highest score. */
  lemma ScoredFileGetsTopLabel(textPerFile: OcrExtractor.TextPerFile, i: nat, scorer: Scorer, k: nat)
    requires OcrExtractor.DistinctKeys(textPerFile)
    requires i < |textPerFile| && Run(textPerFile, scorer).Success? && textPerFile[i].1 != ""
    requires Run(textPerFile[..i], scorer).Success?
    requires !Malformed(scorer(textPerFile[i].1, Run(textPerFile[..i], scorer).value.labels))
    requires IsFirstMax(scorer(textPerFile[i].1, Run(textPerFile[..i], scorer).value.labels).value.scores.value, k)
    ensures var response := scorer(textPerFile[i].1, Run(textPerFile[..i], scorer).value.labels).value;
            && k < |response.labels.value|
            && textPerFile[i].0 in Run(textPerFile, scorer).value.outputs
            && Value(Run(textPerFile, scorer).value.outputs[textPerFile[i].0]) == response.labels.value[k]
  {
    RunEntryVerdict(textPerFile, i, scorer);
  }

  /** The label list the loop holds after a call: the response's labels when it
      was well-formed, the labels the call received otherwise. */
  function LabelsAfter(call: (string, seq<string>), scorer: Scorer): seq<string> {
    var result := scorer(call.0, call.1);
    if Malformed(result) then call.1 else result.value.labels.value
  }

  /** The scoring calls so far are chained: only non-empty texts are scored, the
      first call receives the candidate labels, each later call receives the
      labels left by the one before, and the loop holds the labels the last call left. */
  predicate CallsChained(progress: Progress, scorer: Scorer) {
    var calls := progress.calls;
    && (forall k :: 0 <= k < |calls| ==> calls[k].0 != "")
    && (calls == [] ==> progress.labels == CandidateLabels())
    && (calls != [] ==> calls[0].1 == CandidateLabels() && progress.labels == LabelsAfter(calls[|calls| - 1], scorer))
    && (forall k :: 0 < k < |calls| ==> calls[k].1 == LabelsAfter(calls[k - 1], scorer))
  }

  /** The label list is rebound by each well-formed response and read by the next
      call: `CallsChained` holds of every completed loop. */
  lemma {:induction false} RunCallsChained(textPerFile: OcrExtractor.TextPerFile, scorer: Scorer)
    requires Run(textPerFile, scorer).Success?
    ensures CallsChained(Run(textPerFile, scorer).value, scorer)
    decreases |textPerFile|
  {
    if textPerFile != [] {
      var n := |textPerFile|;
      var init := textPerFile[..n - 1];
      assert textPerFile[..n] == textPerFile;
      RunPrefixSucceeds(textPerFile, n - 1, scorer);
      RunCallsChained(init, scorer);
    }
  }

  /** The pipeline answers every call with at least one score, no more scores
      than labels, and the labels it received in some order (as a zero-shot
      pipeline returns its candidate labels sorted by score). */
  ghost predicate EchoesLabels(scorer: Scorer) {
    forall text: string, labels: seq<string> ::
      !Malformed(scorer(text, labels)) ==>
        && 0 < |scorer(text, labels).value.scores.value| <= |scorer(text, labels).value.labels.value|
        && multiset(scorer(text, labels).value.labels.value) == multiset(labels)
  }

  /** Every label in the list is the value of a member. */
  predicate AllMemberValues(labels: seq<string>) {
    forall l :: l in labels ==> FromValue(l).Some?
  }

  /** With a pipeline that echoes its candidate labels, nothing escapes the loop. */
  lemma {:induction false} RunSucceedsForEchoingScorer(textPerFile: OcrExtractor.TextPerFile, scorer: Scorer)
    requires EchoesLabels(scorer)
    ensures Run(textPerFile, scorer).Success?
    ensures AllMemberValues(Run(textPerFile, scorer).value.labels)
    decreases |textPerFile|
  {
    if textPerFile == [] {
      forall l | l in CandidateLabels() ensures FromValue(l).Some? {
        var j :| 0 <= j < |CandidateLabels()| && CandidateLabels()[j] == l;
        FromValueInvertsValue(Members[j]);
      }
    } else {
      var n := |textPerFile|;
      var init := textPerFile[..n - 1];
      RunSucceedsForEchoingScorer(init, scorer);
      var progress := Run(init, scorer).value;
      var text := textPerFile[n - 1].1;
      if text != "" && !Malformed(scorer(text, progress.labels)) {
        var response := scorer(text, progress.labels).value;
        var scores := response.scores.value;
        var newLabels := response.labels.value;
        var k := IndexOf(scores, Max(scores));
        ArgMaxIsFirstMax(scores);
        assert newLabels[k] in multiset(progress.labels);
        assert FromValue(newLabels[k]).Some?;
        forall l | l in newLabels ensures FromValue(l).Some? {
          assert l in multiset(progress.labels);
        }
      }
    }
  }

  /** A pipeline that answers every call with the same result. */
  function ConstantScorer(result: Option<Response>): Scorer {
    (text, labels) => result
  }

  /** The response the classifier's tests feed it: scores [0, 0.4, 0.6] for the
      labels "unknown", "drivers_license", "bank_statement". */
  function TestResponse(): Response {
    Response(Some([0.0, 0.4, 0.6]), Some(["unknown", "drivers_license", "bank_statement"]))
  }

  /** One file with text and the test response is a BANK_STATEMENT. */
  lemma ScoredFileExample(path: Path)
    ensures ClassifySpec([path], Texts([(path, "test text")]), ConstantScorer(Some(TestResponse())))
            == Success(map[path := BankStatement])
  {
    var d: OcrExtractor.TextPerFile := [(path, "test text")];
    var scorer := ConstantScorer(Some(TestResponse()));
    assert d[..0] == [];
    assert scorer("test text", CandidateLabels()) == Some(TestResponse());
    BankStatementExample();
    assert FileVerdict("test text", CandidateLabels(), scorer) == Success((BankStatement, TestResponse().labels.value));
    assert Run(d, scorer) == Step(Progress(map[], CandidateLabels(), []), path, "test text", scorer);
    assert Run(d, scorer).value.outputs == map[][path := BankStatement];
  }

  /** When extraction raises, the input file is UNKNOWN, whatever the pipeline says. */
  lemma ExtractionFailureExample(scorer: Scorer)
    ensures ClassifySpec(["test.pdf"], Failed, scorer) == Success(map["test.pdf" := Unknown])
  {
    assert (map f | f in ["test.pdf"] :: Unknown) == map["test.pdf" := Unknown];
  }

  /** A file with no text is UNKNOWN, whatever the pipeline says. */
  lemma EmptyTextExample(scorer: Scorer)
    ensures ClassifySpec(["test.pdf"], Texts([("test.pdf", "")]), scorer) == Success(map["test.pdf" := Unknown])
  {
    var d: OcrExtractor.TextPerFile := [("test.pdf", "")];
    assert d[..0] == [];
  }

  /** A response without 'labels' leaves the file UNKNOWN. */
  lemma MissingLabelsExample()
    ensures ClassifySpec(["test.pdf"], Texts([("test.pdf", "test text")]), ConstantScorer(Some(Response(Some([0.4, 0.6]), None))))
            == Success(map["test.pdf" := Unknown])
  {
    var d: OcrExtractor.TextPerFile := [("test.pdf", "test text")];
    assert d[..0] == [];
  }

  /** The extraction call of `classify` as written. It reads a directory field
      the input record does not have and passes keywords the extractor does not
      take, so it raises on every input and the handler answers. */
  function ExtractionAsWritten(files: seq<Path>): Extraction {
    Failed
  }

  /** As written, `classify` never scores anything: every input file is UNKNOWN. */
  lemma AsWrittenEveryFileUnknown(files: seq<Path>, scorer: Scorer)
    ensures ClassifySpec(files, ExtractionAsWritten(files), scorer) == Success(map f | f in files :: Unknown)
  {
  }

  /** The extraction `classify` evidently intends: the text of each input file,
      in order; an error falls to the handler as before. */
  function IntendedExtraction(files: seq<Path>, env: OcrExtractor.Environment): (r: Extraction)
    ensures r.Failed? <==> !OcrExtractor.AllExtract(files, OcrExtractor.TextExtractor(env))
    ensures r.Texts? ==> OcrExtractor.Keys(r.textPerFile) == set f | f in files
    ensures r.Texts? ==> OcrExtractor.EntriesExtracted(r.textPerFile, OcrExtractor.TextExtractor(env))
  {
    var extract := OcrExtractor.TextExtractor(env);
    OcrExtractor.ExtractEachSucceedsIffAll(files, extract);
    match OcrExtractor.ExtractEach(files, extract)
    case Failure(_) => Failed
    case Success(textPerFile) =>
      OcrExtractor.ExtractEachKeys(files, extract);
      OcrExtractor.ExtractEachValues(files, extract);
      Texts(textPerFile)
  }

  /** With the intended extraction, a `classify` that returns has one output per input file. */
  lemma IntendedClassifyCoversEveryFile(files: seq<Path>, env: OcrExtractor.Environment, scorer: Scorer)
    requires ClassifySpec(files, IntendedExtraction(files, env), scorer).Success?
    ensures ClassifySpec(files, IntendedExtraction(files, env), scorer).value.Keys == set f | f in files
  {
  }

  /** An image whose text the test response scores as a bank statement: the
      code as written calls it UNKNOWN, the intended extraction a BANK_STATEMENT. */
  lemma AsWrittenMissesScoredImage(env: OcrExtractor.Environment)
    requires env.fileExists("test.png") && ".png" in env.imageTypes && env.imageOcr("test.png") == Some("test text")
    ensures ClassifySpec(["test.png"], ExtractionAsWritten(["test.png"]), ConstantScorer(Some(TestResponse())))
            == Success(map["test.png" := Unknown])
    ensures ClassifySpec(["test.png"], IntendedExtraction(["test.png"], env), ConstantScorer(Some(TestResponse())))
            == Success(map["test.png" := BankStatement])
  {
    assert (map f | f in ["test.png"] :: Unknown) == map["test.png" := Unknown];
    TestImageExtracts(env);
    ScoredFileExample("test.png");
  }

  /** The intended extraction reads the test image's text through image OCR. */
  lemma TestImageExtracts(env: OcrExtractor.Environment)
    requires env.fileExists("test.png") && ".png" in env.imageTypes && env.imageOcr("test.png") == Some("test text")
    ensures IntendedExtraction(["test.png"], env) == Texts([("test.png", "test text")])
  {
    var p: Path := "test.png";
    assert OcrExtractor.ExtractText(p, env) == Success("test text") by {
      TestImageSuffix();
      OcrExtractor.ImageSuffixRoutesToOcr(p, env);
    }
    var files: seq<Path> := [p];
    assert files[..0] == [];
    assert OcrExtractor.ExtractEach(files, OcrExtractor.TextExtractor(env)) == Success([(p, "test text")]);
  }

  /** "test.png" has the image suffix ".png". */
  lemma TestImageSuffix()
    ensures Lower(Suffix("test.png")) == ".png"
  {
    LowerKeeps(".png");
    var p: Path := "test.png";
    assert p[5..] == "png";
    SuffixAt(p, 4);
  }

  /** `classify` with the intended extraction: every input file gets an output
      when nothing escapes, and a failed extraction makes every file UNKNOWN. */
  method ClassifyDocuments(files: seq<Path>, env: OcrExtractor.Environment, scorer: Scorer)
    returns (r: Result<map<Path, DocumentType>, ClassifyError>)
    ensures r == ClassifySpec(files, IntendedExtraction(files, env), scorer)
    ensures r.Success? ==> r.value.Keys == set f | f in files
    ensures !OcrExtractor.AllExtract(files, OcrExtractor.TextExtractor(env)) ==>
              r.Success? && forall f :: f in r.value ==> r.value[f] == Unknown
  {
    r := Classify(files, IntendedExtraction(files, env), scorer);
    if r.Success? {
      IntendedClassifyCoversEveryFile(files, env, scorer);
    }
  }
}

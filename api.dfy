/** The HTTP surface of the review service: `GET /health` and
    `POST /predict`. The classifier is a parameter: a function from the
    request text to the index of the most probable class and its
    probability, rounded to four decimals. */
module Api {
  import opened PyStr
  import opened Signals

  datatype Label = Real | Fake {
    /** The label as it appears in the JSON response. */
    function Name(): string {
      if Fake? then "fake" else "real"
    }
  }

  /** What the classifier reports for one text. */
  datatype Inference = Inference(predClass: nat, confidence: Confidence)

  /** The body of a successful `/predict` response; `verdict` is its "label" field. */
  datatype Prediction = Prediction(verdict: Label, confidence: Confidence, signals: seq<string>)

  datatype HttpError = HttpError(status: nat, detail: string)

  datatype Response = Ok(prediction: Prediction) | Error(error: HttpError)

  /** The body of a `/health` response. */
  datatype Health = Health(status: string, service: string, modelLoaded: bool)

  const ModelNotLoaded: HttpError :=
    HttpError(503, "Model not loaded. Check server logs for loading errors.")
  const EmptyReview: HttpError :=
    HttpError(400, "Review text cannot be empty")

  /** `GET /health`: always answers, and reports whether the model loaded. */
  function HealthCheck(modelLoaded: bool): (h: Health)
    ensures h.status == "ok" && h.service == "veritrust"
    ensures h.modelLoaded == modelLoaded
  {
    Health("ok", "veritrust", modelLoaded)
  }

  /** `not text or not text.strip()`. */
  predicate IsBlank(text: string) {
    text == [] || Strip(text) == []
  }

  /** Class index 1 is "fake"; every other index is "real". */
  function LabelOf(predClass: nat): (l: Label)
    ensures l.Name() == "fake" <==> predClass == 1
    ensures l.Name() == "real" <==> predClass != 1
  {
    if predClass == 1 then Fake else Real
  }

  /** `POST /predict`. A model that failed to load is reported first, for
      every text; then blank text is refused; otherwise the text is
      classified and the signals are computed on the text as received. */
  function PredictReview(modelLoaded: bool, text: string, classify: string -> Inference): (r: Response)
    ensures !modelLoaded ==> r == Error(ModelNotLoaded)
    ensures modelLoaded && IsBlank(text) ==> r == Error(EmptyReview)
    ensures r.Ok? <==> modelLoaded && !IsBlank(text)
    ensures r.Ok? ==> r.prediction.confidence == classify(text).confidence
    ensures r.Ok? ==> (r.prediction.verdict == Fake <==> classify(text).predClass == 1)
    ensures r.Ok? ==> r.prediction.signals == SignalsOf(text, classify(text).confidence)
  {
    if !modelLoaded then Error(ModelNotLoaded)
    else if IsBlank(text) then Error(EmptyReview)
    else
      var inference := classify(text);
      Ok(Prediction(LabelOf(inference.predClass), inference.confidence,
                    SignalsOf(text, inference.confidence)))
  }

  // ---------------------------------------------------------------------
  // Properties of the endpoints
  // ---------------------------------------------------------------------

  /** Text is refused as blank exactly when it is all whitespace, which is
      exactly when it has no words. */
  lemma BlankIffNoWords(text: string)
    ensures IsBlank(text) <==> AllSpace(text)
    ensures IsBlank(text) <==> WordCount(text) == 0
  {
    StripEmptyIffAllSpace(text);
    SplitEmptyIffAllSpace(text);
  }

  /** `/health` reports an unloaded model exactly when `/predict` answers
      503, whatever the text and the classifier. */
  lemma HealthAgreesWithPredict(modelLoaded: bool, text: string, classify: string -> Inference)
    ensures !HealthCheck(modelLoaded).modelLoaded
        <==> PredictReview(modelLoaded, text, classify) == Error(ModelNotLoaded)
  {
  }

  /** A refused request does not depend on the classifier: no
      classification takes place. */
  lemma RefusalIgnoresClassifier(modelLoaded: bool, text: string, c1: string -> Inference, c2: string -> Inference)
    ensures PredictReview(modelLoaded, text, c1).Error?
        ==> PredictReview(modelLoaded, text, c1) == PredictReview(modelLoaded, text, c2)
  {
  }

  /** An accepted review has at least one word, so the short-review signal
      means one to four words. */
  lemma AcceptedReviewHasWords(modelLoaded: bool, text: string, classify: string -> Inference)
    ensures PredictReview(modelLoaded, text, classify).Ok? ==> WordCount(text) >= 1
    ensures PredictReview(modelLoaded, text, classify).Ok?
        ==> (ShortReviewMessage in PredictReview(modelLoaded, text, classify).prediction.signals
             <==> 1 <= WordCount(text) < MinWords)
  {
    BlankIffNoWords(text);
    SignalsExactly(text, classify(text).confidence);
  }

  /** The deceptive-language signal depends on the confidence alone: a
      confident "real" verdict carries it too. */
  lemma StrongSignalIgnoresLabel(modelLoaded: bool, text: string, classify: string -> Inference)
    ensures PredictReview(modelLoaded, text, classify).Ok?
        ==> (StrongPatternMessage in PredictReview(modelLoaded, text, classify).prediction.signals
             <==> classify(text).confidence > StrongThreshold)
  {
    SignalsExactly(text, classify(text).confidence);
  }
}

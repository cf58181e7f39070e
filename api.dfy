/**
 * The inference endpoint (src/api/app.py): its own copy of `clean_text` and
 * the `/predict` handler `predict_log`. The fitted vectorizer and classifier
 * are loaded once at start-up and never change; here they are a fixed pair
 * of opaque functions passed to the handler.
 */
module Api {
  import opened Wrappers
  import opened PyText
  import Preprocess

  // ---------------------------------------------------------------------
  // clean_text, as copied into the endpoint

  /** The endpoint's normaliser: the same four substitutions, applied to one
      local in the same order. */
  function CleanText(text: string): string
  {
    var lowered := Lower(text);
    var noNumbers := DeleteDigits(lowered);
    var noPunctuation := DeleteNonWord(noNumbers);
    Strip(CollapseSpaces(noPunctuation))
  }

  /** Train/serve agreement: the endpoint cleans every message exactly as the
      training pipeline does. */
  lemma TrainServeAgree(text: string)
    ensures CleanText(text) == Preprocess.CleanText(text)
  {
  }

  // ---------------------------------------------------------------------
  // predict_log

  /** A class label the classifier can output. */
  type Bit = b: int | 0 <= b <= 1

  /** The two start-up artifacts: the fitted TF-IDF vectorizer's `transform`
      of a batch of texts and the fitted classifier's `predict`, one label
      per row of the features. */
  datatype Artifacts<!Features> = Artifacts(transform: seq<string> -> Features, predict: Features -> seq<Bit>)

  /** The JSON body {"predicted_label": ...}. */
  datatype Response = Response(predictedLabel: int)

  /** The ways the handler fails: the 400 answer to an empty message, and
      indexing an empty prediction. */
  datatype ApiError = HttpException(statusCode: int, detail: string) | IndexError

  const MessageRequired := "Log message is required."

  /** What the artifacts answer for one text already cleaned: the first
      label predicted for the one-element batch holding it. */
  function Classify<Features>(cleaned: string, art: Artifacts<Features>): Result<Response, ApiError>
  {
    var prediction := art.predict(art.transform([cleaned]));
    if |prediction| == 0 then Err(IndexError) else Ok(Response(prediction[0]))
  }

  /** The handler: an empty message is refused with status 400; any other
      message is cleaned, vectorised as a batch of one and classified, and
      the first predicted label is returned. */
  function PredictLog<Features>(logMessage: string, art: Artifacts<Features>): (r: Result<Response, ApiError>)
    ensures r == Err(HttpException(400, MessageRequired)) <==> logMessage == []
    ensures r.Ok? ==> 0 <= r.value.predictedLabel <= 1
  {
    if logMessage == [] then Err(HttpException(400, MessageRequired))
    else
      var cleaned := CleanText(logMessage);
      var features := art.transform([cleaned]);
      var prediction := art.predict(features);
      if |prediction| == 0 then Err(IndexError) else Ok(Response(prediction[0] as int))
  }

  /** An empty message is refused the same way whatever the artifacts are:
      nothing is cleaned, vectorised or predicted for it. */
  lemma EmptyMessageRejected<F>(a1: Artifacts<F>, a2: Artifacts<F>)
    ensures PredictLog([], a1) == PredictLog([], a2)
    ensures PredictLog([], a1).Err? && PredictLog([], a1).error.HttpException?
    ensures PredictLog([], a1).error.statusCode == 400
  {
  }

  /** A non-empty message is answered by classifying exactly the text the
      training pipeline would have produced from it. */
  lemma PredictLogClassifiesCleaned<F>(logMessage: string, art: Artifacts<F>)
    requires logMessage != []
    ensures PredictLog(logMessage, art) == Classify(Preprocess.CleanText(logMessage), art)
  {
    TrainServeAgree(logMessage);
  }

  /** A message of whitespace only passes the guard and is classified as the
      empty text. */
  lemma WhitespaceMessageClassifiedEmpty<F>(logMessage: string, art: Artifacts<F>)
    requires logMessage != [] && AllSpace(logMessage)
    ensures PredictLog(logMessage, art) == Classify("", art)
  {
    PredictLogClassifiesCleaned(logMessage, art);
    Preprocess.CleanTextAllSpace(logMessage);
  }

  /** Two non-empty messages that clean to the same text get the same answer. */
  lemma PredictLogDependsOnCleaned<F>(m1: string, m2: string, art: Artifacts<F>)
    requires m1 != [] && m2 != []
    requires Preprocess.CleanText(m1) == Preprocess.CleanText(m2)
    ensures PredictLog(m1, art) == PredictLog(m2, art)
  {
    PredictLogClassifiesCleaned(m1, art);
    PredictLogClassifiesCleaned(m2, art);
  }

  /** Sending the cleaned form of a message, when that form is not empty,
      gets the same answer as sending the message itself. */
  lemma PredictLogCleanedAgain<F>(logMessage: string, art: Artifacts<F>)
    requires CleanText(logMessage) != []
    ensures PredictLog(CleanText(logMessage), art) == PredictLog(logMessage, art)
  {
    TrainServeAgree(logMessage);
    Preprocess.CleanTextIdempotent(logMessage);
    PredictLogClassifiesCleaned(logMessage, art);
    PredictLogClassifiesCleaned(CleanText(logMessage), art);
  }
}

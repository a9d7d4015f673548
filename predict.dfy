/** The decision and response-shaping logic of the `/predict` handler
    (index.py:64-95). The two artifacts loaded at start-up are modelled by what
    they do: the vectorizer as a function from text to features of some type
    `F`, the classifier as a function from features to a label; `None` stands
    for an artifact that failed to load. The request body is the parsed JSON
    object, or `None` when the body could not be read as one. */
module Predict {
  import opened PyStrings

  datatype Option<T> = None | Some(value: T)

  /** `data.get(key, default)`: the value when the field is present, the
      default when it is absent. */
  function GetOr<T>(o: Option<T>, default: T): (v: T)
    ensures o.Some? ==> v == o.value
    ensures o.None? ==> v == default
  {
    match o
    case Some(v) => v
    case None => default
  }

  /** The fields of the JSON body that the handler reads; either may be absent. */
  datatype Payload = Payload(subject: Option<string>, message: Option<string>)

  /** What the handler answers. */
  datatype Response =
    | ModelNotLoaded                 // 500, index.py:65-66
    | EmptyText                      // 400, index.py:75-76
    | Classified(isSpam: bool, prediction: string, analyzedTextLength: nat)  // 200, index.py:85-90; `prediction` is the `label` field
    | InternalError                  // 500, index.py:92-95

  /** The HTTP status code of each response. */
  function Status(r: Response): (code: nat)
    ensures code == 200 <==> r.Classified?
    ensures code == 400 <==> r.EmptyText?
    ensures code == 500 <==> r.ModelNotLoaded? || r.InternalError?
  {
    match r
    case ModelNotLoaded => 500
    case EmptyText => 400
    case Classified(_, _, _) => 200
    case InternalError => 500
  }

  /** The `error` field of the failure responses with a fixed text. */
  function ErrorText(r: Response): (t: Option<string>)
    ensures t.Some? <==> r.ModelNotLoaded? || r.EmptyText?
  {
    match r
    case ModelNotLoaded => Some("El modelo no está cargado en el servidor.")
    case EmptyText => Some("Texto vacío")
    case _ => None
  }

  /** `f"{subject} {message}"`, with absent fields read as "" (index.py:71-73). */
  function RawText(p: Payload): string {
    GetOr(p.subject, "") + " " + GetOr(p.message, "")
  }

  /** The raw text is the subject, one space and the message, each field
      unchanged and an absent one empty. */
  lemma RawTextLayout(p: Payload)
    ensures var s, m := GetOr(p.subject, ""), GetOr(p.message, "");
            var raw := RawText(p);
            |raw| == |s| + 1 + |m| && raw[..|s|] == s && raw[|s|] == ' ' && raw[|s| + 1..] == m
  {
    var s, m := GetOr(p.subject, ""), GetOr(p.message, "");
    assert RawText(p) == s + (" " + m);
  }

  /** `full_text`: the raw text with surrounding whitespace stripped (index.py:73).
      It is empty exactly when subject and message are both whitespace only. */
  function FullText(p: Payload): (t: string)
    ensures t == [] <==> AllSpace(GetOr(p.subject, "")) && AllSpace(GetOr(p.message, ""))
  {
    var s, m := GetOr(p.subject, ""), GetOr(p.message, "");
    AllSpaceConcat(s, " " + m);
    AllSpaceConcat(" ", m);
    assert RawText(p) == s + (" " + m);
    Strip(RawText(p))
  }

  /** Fields that carry no surrounding whitespace are joined by exactly one
      space, and nothing else is touched. */
  lemma FullTextOfTrimmedFields(subject: string, message: string)
    requires subject != [] && !IsSpace(subject[0]) && !IsSpace(subject[|subject| - 1])
    requires message != [] && !IsSpace(message[0]) && !IsSpace(message[|message| - 1])
    ensures FullText(Payload(Some(subject), Some(message))) == subject + " " + message
  {
    var raw := subject + " " + message;
    assert raw[0] == subject[0] && raw[|raw| - 1] == message[|message| - 1];
    assert TrimStart(raw) == raw;
    assert TrimEnd(raw) == raw;
  }

  /** An absent subject contributes only the separating space, which is
      stripped: the text analysed is the stripped message. */
  lemma FullTextWithoutSubject(message: string)
    ensures FullText(Payload(None, Some(message))) == Strip(message)
  {
    assert "" + " " + message == [' '] + message;
    assert ([' '] + message)[1..] == message;
  }

  /** The handler once both artifacts are loaded and `full_text` is known
      (index.py:75-90): an empty text is refused with the 400, any other is
      classified, with `is_spam` exactly "the label is spam" and the length
      of the text analysed. */
  function Respond<F>(vectorizer: string -> F, model: F -> string, fullText: string): (r: Response)
    ensures r.EmptyText? <==> fullText == []
    ensures r.Classified? <==> fullText != []
    ensures r.Classified? ==>
              && r.prediction == model(vectorizer(fullText))
              && (r.isSpam <==> r.prediction == "spam")
              && r.analyzedTextLength == |fullText| > 0
  {
    if fullText == [] then EmptyText
    else
      var prediction := model(vectorizer(fullText));
      Classified(prediction == "spam", prediction, |fullText|)
  }

  /** The `/predict` handler (index.py:64-95). When either artifact is
      missing the answer is the fixed 500 whatever the request; an unreadable
      body is an internal error; an empty `full_text` is a 400 that never
      reaches the artifacts; otherwise the classifier's label is reported
      unchanged, `is_spam` is exactly "the label is spam", and the reported
      length is that of `full_text`. */
  function Handle<F>(vectorizer: Option<string -> F>, model: Option<F -> string>, body: Option<Payload>): (r: Response)
    ensures r.ModelNotLoaded? <==> vectorizer.None? || model.None?
    ensures r.InternalError? <==> vectorizer.Some? && model.Some? && body.None?
    ensures r.EmptyText? <==>
              vectorizer.Some? && model.Some? && body.Some? && FullText(body.value) == []
    ensures r.Classified? ==>
              && vectorizer.Some? && model.Some? && body.Some?
              && r.prediction == model.value(vectorizer.value(FullText(body.value)))
              && (r.isSpam <==> r.prediction == "spam")
              && r.analyzedTextLength == |FullText(body.value)| > 0
  {
    if vectorizer.None? || model.None? then ModelNotLoaded
    else if body.None? then InternalError
    else Respond(vectorizer.value, model.value, FullText(body.value))
  }

  /** With an artifact missing, the request is never looked at: every body
      gets the same 500 answer. */
  lemma NotLoadedIgnoresRequest<F>(vectorizer: Option<string -> F>, model: Option<F -> string>,
                                   body1: Option<Payload>, body2: Option<Payload>)
    requires vectorizer.None? || model.None?
    ensures Handle(vectorizer, model, body1) == Handle(vectorizer, model, body2) == ModelNotLoaded
    ensures Status(Handle(vectorizer, model, body1)) == 500
  {
  }

  /** A whitespace-only request is refused with a 400 before the artifacts
      are used: whatever vectorizer and classifier are loaded, the answer is
      the same. */
  lemma EmptyTextSkipsArtifacts<F, G>(v1: string -> F, m1: F -> string, v2: string -> G, m2: G -> string, p: Payload)
    requires FullText(p) == []
    ensures Handle(Some(v1), Some(m1), Some(p)) == Handle(Some(v2), Some(m2), Some(p)) == EmptyText
    ensures Status(EmptyText) == 400
  {
  }

  /** A loaded service answers 400 exactly when subject and message are both
      whitespace only (absent fields count as empty). */
  lemma BlankFieldsAreBadRequest<F>(vectorizer: string -> F, model: F -> string, p: Payload)
    ensures Handle(Some(vectorizer), Some(model), Some(p)).EmptyText? <==>
              AllSpace(GetOr(p.subject, "")) && AllSpace(GetOr(p.message, ""))
  {
  }

  /** A body with neither field (`{}`) is a 400. */
  lemma EmptyObjectIsBadRequest<F>(vectorizer: string -> F, model: F -> string)
    ensures Handle(Some(vectorizer), Some(model), Some(Payload(None, None))) == EmptyText
  {
  }

  /** The answer to a well-formed request depends on the body only through
      `full_text`: two bodies with the same stripped text get the same answer. */
  lemma AnswerDependsOnlyOnFullText<F>(vectorizer: string -> F, model: F -> string, p: Payload, q: Payload)
    requires FullText(p) == FullText(q)
    ensures Handle(Some(vectorizer), Some(model), Some(p)) == Handle(Some(vectorizer), Some(model), Some(q))
  {
  }

  /** When the classifier answers "spam" or "ham" on every text, a 200 answer
      carries one of those two labels and flags spam exactly when it is not
      "ham". */
  lemma ClosedLabelSet<F>(vectorizer: string -> F, model: F -> string, p: Payload)
    requires forall t :: model(vectorizer(t)) == "spam" || model(vectorizer(t)) == "ham"
    requires Handle(Some(vectorizer), Some(model), Some(p)).Classified?
    ensures var r := Handle(Some(vectorizer), Some(model), Some(p));
            (r.prediction == "spam" || r.prediction == "ham") && (r.isSpam <==> r.prediction != "ham")
  {
    var t := FullText(p);
    assert model(vectorizer(t)) == "spam" || model(vectorizer(t)) == "ham";
  }

  /** A loaded service given a non-blank request answers 200 with the
      classifier's verdict on `full_text`, computed once. */
  lemma ClassifiedAnswer<F>(vectorizer: string -> F, model: F -> string, p: Payload)
    requires FullText(p) != []
    ensures var verdict := model(vectorizer(FullText(p)));
            Handle(Some(vectorizer), Some(model), Some(p)) == Classified(verdict == "spam", verdict, |FullText(p)|)
  {
  }

  /** The request `{"subject": "Win money now", "message": "Click here"}` is
      classified on the text "Win money now Click here", 24 characters long. */
  lemma WinMoneyExample<F>(vectorizer: string -> F, model: F -> string)
    ensures var r := Handle(Some(vectorizer), Some(model), Some(Payload(Some("Win money now"), Some("Click here"))));
            && r.Classified?
            && r.prediction == model(vectorizer("Win money now Click here"))
            && r.analyzedTextLength == 24
  {
    var subject, message := "Win money now", "Click here";
    var text := "Win money now Click here";
    assert subject + " " + message == text;
    assert |text| == 24;
    assert subject[0] == 'W' && subject[|subject| - 1] == 'w';
    assert message[0] == 'C' && message[|message| - 1] == 'e';
    var p := Payload(Some(subject), Some(message));
    assert FullText(p) == text by {
      FullTextOfTrimmedFields(subject, message);
    }
    ClassifiedAnswer(vectorizer, model, p);
  }
}

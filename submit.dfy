/** What pressing Analyze does (im.py:109-143): the API key is checked first, then that
    at least one image was uploaded; otherwise the images are opened and the model is
    asked, and a successful answer is recorded in the history and summarised. */
module Submit {
  import opened Types
  import opened Strings
  import opened History
  import Summary
  import Keywords

  /** The analysis modes offered in the sidebar. */
  datatype Mode = Plants | Food | Vehicles

  function ModeName(mode: Mode): string {
    match mode
    case Plants => "Plants"
    case Food => "Food"
    case Vehicles => "Vehicles"
  }

  /** The question sent to the model: the user's own text, or, when that is empty,
      "Analyze the uploaded <mode in lower case> images.". */
  function EffectiveQuestion(userText: string, mode: Mode): (q: string)
    ensures q != []
    ensures userText != [] ==> q == userText
    ensures userText == [] && mode == Plants ==> q == "Analyze the uploaded plants images."
    ensures userText == [] && mode == Food ==> q == "Analyze the uploaded food images."
    ensures userText == [] && mode == Vehicles ==> q == "Analyze the uploaded vehicles images."
  {
    if userText != [] then userText
    else "Analyze the uploaded " + Lower(ModeName(mode)) + " images."
  }

  /** An uploaded file as the browser hands it over. */
  datatype Upload = Upload(name: string, content: seq<bv8>)

  /** What opening the uploads as images and asking the model produced: its text, or an
      exception from either step. */
  datatype Reply = Answered(text: string) | Raised(reason: string)

  /** Opening the uploads and calling the model, for a mode, a question and the uploads. */
  type Model = (Mode, string, seq<Upload>) -> Reply

  /** What a press of Analyze ends in. */
  datatype Outcome =
    | MissingApiKey
    | NoUpload
    | CallFailed
    | Analyzed(question: string, response: string, summary: string, keywords: string)

  /** The error shown for each failed outcome: a message exactly for the failures, each
      failure its own. */
  function ErrorMessage(o: Outcome): (m: Option<string>)
    ensures m.None? <==> o.Analyzed?
    ensures o == MissingApiKey ==> m == Some("Missing API key.")
    ensures o == NoUpload ==> m == Some("Please upload at least one image.")
    ensures o == CallFailed ==> m == Some("Error while calling Gemini API.")
  {
    match o
    case MissingApiKey => Some("Missing API key.")
    case NoUpload => Some("Please upload at least one image.")
    case CallFailed => Some("Error while calling Gemini API.")
    case Analyzed(_, _, _, _) => None
  }

  /** Different failures show different messages, so the message tells which check failed. */
  lemma ErrorMessageDistinct(o: Outcome, p: Outcome)
    requires ErrorMessage(o) == ErrorMessage(p) && !o.Analyzed?
    ensures o == p
  {
  }

  /** `not API_KEY` is false: the variable is set and not empty. */
  predicate HasApiKey(apiKey: Option<string>) {
    apiKey.Some? && apiKey.value != []
  }

  /** The outcome of one press of Analyze. */
  function OutcomeOf(apiKey: Option<string>, uploads: seq<Upload>, userText: string, mode: Mode, model: Model): (o: Outcome)
    ensures !HasApiKey(apiKey) <==> o == MissingApiKey
    ensures HasApiKey(apiKey) && uploads == [] <==> o == NoUpload
    ensures o.Analyzed? <==>
      HasApiKey(apiKey) && uploads != [] && model(mode, EffectiveQuestion(userText, mode), uploads).Answered?
    ensures o.Analyzed? ==>
      o.question == EffectiveQuestion(userText, mode) &&
      o.response == model(mode, o.question, uploads).text &&
      o.summary == Summary.Summarize(o.response) &&
      o.keywords == Keywords.ExtractKeywords(o.response, Keywords.DefaultTopN)
    ensures ErrorMessage(o).None? <==> o.Analyzed?
  {
    if !HasApiKey(apiKey) then MissingApiKey
    else if uploads == [] then NoUpload
    else
      var question := EffectiveQuestion(userText, mode);
      match model(mode, question, uploads)
      case Raised(_) => CallFailed
      case Answered(text) =>
        Analyzed(question, text, Summary.Summarize(text), Keywords.ExtractKeywords(text, Keywords.DefaultTopN))
  }

  /** A successful press shows a summary ending in "." with at most three ".", and at most
      ten keywords, each a word of the response that is not a stopword. */
  lemma AnalyzedDisplay(apiKey: Option<string>, uploads: seq<Upload>, userText: string, mode: Mode, model: Model)
    requires OutcomeOf(apiKey, uploads, userText, mode, model).Analyzed?
    ensures var o := OutcomeOf(apiKey, uploads, userText, mode, model);
      var ks := Keywords.ParseList(o.keywords);
      o.summary[|o.summary| - 1] == '.' &&
      CountChar(o.summary, '.') <= Summary.MaxPieces &&
      |ks| <= 10 &&
      forall k :: k in ks ==> k in Keywords.Words(o.response) && k !in Keywords.Stopwords
  {
    var o := OutcomeOf(apiKey, uploads, userText, mode, model);
    Summary.SummaryDots(o.response);
    Keywords.ExtractKeywordsReadsBack(o.response, Keywords.DefaultTopN);
    Keywords.KeywordsAreWords(o.response, Keywords.DefaultTopN);
  }

  /** Pressing Analyze: the checks in order, the call, and on success one new history entry. */
  method Analyze(history: SessionHistory, apiKey: Option<string>, uploads: seq<Upload>,
                 userText: string, mode: Mode, model: Model) returns (o: Outcome)
    modifies history
    ensures o == OutcomeOf(apiKey, uploads, userText, mode, model)
    ensures o.Analyzed? ==> history.entries == old(history.entries) + [Entry(o.question, o.response)]
    ensures !o.Analyzed? ==> history.entries == old(history.entries)
  {
    if !HasApiKey(apiKey) {
      o := MissingApiKey;
    } else if uploads == [] {
      o := NoUpload;
    } else {
      var question := EffectiveQuestion(userText, mode);
      var reply := model(mode, question, uploads);
      match reply {
        case Raised(_) =>
          o := CallFailed;
        case Answered(text) =>
          history.Append(question, text);
          var summary := Summary.Summarize(text);
          var keywords := Keywords.ExtractKeywords(text, Keywords.DefaultTopN);
          o := Analyzed(question, text, summary, keywords);
      }
    }
  }
}

/**
 * The four POST handlers of the relay server (index.js). Each handler
 * validates the prompt and, where the route takes one, the uploaded file;
 * picks the prompt actually sent; builds the content for the generative
 * model; and maps the model's outcome to an HTTP status and a JSON body.
 * The four differ only in the settings held by a RouteConfig, so they are
 * modelled as one function, Handle, over those settings. The call to the
 * model is not modelled: its outcome is a parameter.
 */
module Relay {
  import opened Wrappers
  import Base64

  /** The model identifier every request names. */
  const Model: string := "gemini-2.5-flash"

  /** The four routes. */
  datatype Route = GenerateText | FromImage | FromDocument | FromAudio

  /** A file as the multipart parser hands it over: its octets and the MIME type the caller declared. */
  datatype Upload = Upload(buffer: seq<Base64.Byte>, mimetype: string)

  /** What a route demands and what it answers with. */
  datatype RouteConfig = RouteConfig(
    path: string,                 // the URL path the handler is mounted on
    fileField: Option<string>,    // the multipart field holding the file; None when no file is taken
    promptRequired: bool,         // whether a missing or empty prompt is rejected
    defaultPrompt: Option<string>,// the prompt used when none is given, if any
    missingInputError: string,    // the error of the 400 response
    fallbackError: string)        // the error of the 500 response when the failure has no message

  /**
   * The settings of each route. Exactly the file routes name a file field,
   * the one multer reads (`upload.single`), never the prompt's; a route either rejects a missing prompt or has a
   * non-empty default for it; and the error strings are never empty.
   */
  function Config(route: Route): (c: RouteConfig)
    ensures c.fileField.Some? <==> route != GenerateText
    ensures c.fileField.Some? ==> c.fileField.value != "prompt"
    ensures route == FromImage ==> c.fileField == Some("image")
    ensures route == FromDocument ==> c.fileField == Some("document")
    ensures route == FromAudio ==> c.fileField == Some("audio")
    ensures c.promptRequired <==> c.defaultPrompt.None?
    ensures c.defaultPrompt.Some? ==> c.defaultPrompt.value != ""
    ensures c.missingInputError != "" && c.fallbackError != ""
  {
    match route
    case GenerateText =>
      RouteConfig("/generate-text", None, true, None,
                  "Prompt is required", "Failed to generate text")
    case FromImage =>
      RouteConfig("/generate-from-image", Some("image"), true, None,
                  "Prompt and image are required", "Failed to generate text from image")
    case FromDocument =>
      RouteConfig("/generate-from-document", Some("document"), false,
                  Some("Please analyze and summarize this document."),
                  "Document file is required", "Failed to analyze document")
    case FromAudio =>
      RouteConfig("/generate-from-audio", Some("audio"), false,
                  Some("Please transcribe and provide a summary of this audio."),
                  "Audio file is required", "Failed to process audio")
  }

  /** The routes that take an uploaded file. */
  predicate TakesFile(route: Route) {
    route != GenerateText
  }

  /** JavaScript truthiness of the `prompt` field: present and not the empty string. */
  predicate Truthy(prompt: Option<string>) {
    prompt.Some? && prompt.value != ""
  }

  /** One element of the content sent to the model. */
  datatype Part = TextPart(text: string) | InlineData(data: string, mimeType: string)

  /** The `contents` of a request: the bare prompt (text route) or an ordered sequence of parts. */
  datatype Contents = PromptOnly(prompt: string) | Parts(parts: seq<Part>)

  /** The argument of one call to the model. */
  datatype Payload = Payload(model: string, contents: Contents)

  /** What the model call did: returned generated text, or threw an error with a message. */
  datatype Outcome = Generated(text: string) | Failed(message: string)

  /** A JSON response body; a None field is absent from the JSON object. */
  datatype Body = Body(success: Option<bool>, text: Option<string>, error: Option<string>)

  /** An HTTP response. */
  datatype Response = Response(status: int, body: Body)

  /** What one request leads to: the response, and the payload sent to the model if a call was made. */
  datatype Exchange = Exchange(response: Response, sent: Option<Payload>)

  /** Whether the request lacks what its route requires. */
  function MissingInput(route: Route, prompt: Option<string>, file: Option<Upload>): (missing: bool)
    ensures route == GenerateText ==> (missing <==> !Truthy(prompt))
    ensures route == FromImage ==> (missing <==> !Truthy(prompt) || file.None?)
    ensures route == FromDocument ==> (missing <==> file.None?)
    ensures route == FromAudio ==> (missing <==> file.None?)
  {
    var cfg := Config(route);
    (cfg.promptRequired && !Truthy(prompt)) || (cfg.fileField.Some? && file.None?)
  }

  /** The 400 response of a route whose required input is missing. */
  function Rejection(route: Route): (r: Response)
    ensures r.status == 400 && r.body.success.None? && r.body.text.None?
    ensures route == GenerateText ==> r.body.error == Some("Prompt is required")
    ensures route == FromImage ==> r.body.error == Some("Prompt and image are required")
    ensures route == FromDocument ==> r.body.error == Some("Document file is required")
    ensures route == FromAudio ==> r.body.error == Some("Audio file is required")
  {
    Response(400, Body(None, None, Some(Config(route).missingInputError)))
  }

  /** The prompt sent to the model: the caller's prompt, or the route's default when it is missing or empty. */
  function ActivePrompt(route: Route, prompt: Option<string>): (p: string)
    requires Truthy(prompt) || Config(route).defaultPrompt.Some?
    ensures Truthy(prompt) ==> p == prompt.value
    ensures !Truthy(prompt) && route == FromDocument ==> p == "Please analyze and summarize this document."
    ensures !Truthy(prompt) && route == FromAudio ==> p == "Please transcribe and provide a summary of this audio."
    ensures !Truthy(prompt) ==> route == FromDocument || route == FromAudio
  {
    if Truthy(prompt) then prompt.value else Config(route).defaultPrompt.value
  }

  /** The payload for the model: the prompt alone, or the prompt followed by the file inlined in base64. */
  function BuildPayload(route: Route, prompt: string, file: Option<Upload>): (p: Payload)
    requires TakesFile(route) ==> file.Some?
    ensures p.model == Model
    ensures route == GenerateText <==> p.contents.PromptOnly?
    ensures p.contents.PromptOnly? ==> p.contents.prompt == prompt
    ensures p.contents.Parts? ==>
              |p.contents.parts| == 2 && p.contents.parts[0] == TextPart(prompt) &&
              p.contents.parts[1].InlineData? &&
              p.contents.parts[1].data == Base64.Encode(file.value.buffer) &&
              Base64.Decode(p.contents.parts[1].data) == Some(file.value.buffer) &&
              |p.contents.parts[1].data| == 4 * ((|file.value.buffer| + 2) / 3) &&
              p.contents.parts[1].mimeType == file.value.mimetype
  {
    if !TakesFile(route) then
      Payload(Model, PromptOnly(prompt))
    else
      var data := Base64.Encode(file.value.buffer);
      Base64.RoundTrip(file.value.buffer);
      Base64.EncodeLength(file.value.buffer);
      Payload(Model, Parts([TextPart(prompt), InlineData(data, file.value.mimetype)]))
  }

  /** The response for the model's outcome. */
  function MapOutcome(route: Route, outcome: Outcome): (r: Response)
    ensures outcome.Generated? ==> r == Response(200, Body(Some(true), Some(outcome.text), None))
    ensures outcome.Failed? ==> r.status == 500 && r.body.success == Some(false) && r.body.text.None?
    ensures outcome.Failed? && outcome.message != "" ==> r.body.error == Some(outcome.message)
    ensures outcome.Failed? && outcome.message == "" ==>
              r.body.error == Some(match route
                                   case GenerateText => "Failed to generate text"
                                   case FromImage => "Failed to generate text from image"
                                   case FromDocument => "Failed to analyze document"
                                   case FromAudio => "Failed to process audio")
  {
    match outcome
    case Generated(text) => Response(200, Body(Some(true), Some(text), None))
    case Failed(message) =>
      Response(500, Body(Some(false), None,
                         Some(if message != "" then message else Config(route).fallbackError)))
  }

  /**
   * One request to `route`: the prompt field, the uploaded file (ignored by the
   * text route) and the outcome the model call would have.
   */
  function Handle(route: Route, prompt: Option<string>, file: Option<Upload>, outcome: Outcome): (x: Exchange)
    ensures x.response.status in {200, 400, 500}
    ensures x.response.status == 400 <==> MissingInput(route, prompt, file)
    ensures MissingInput(route, prompt, file) ==> x == Exchange(Rejection(route), None)
    ensures x.sent.Some? <==> x.response.status != 400
    ensures !MissingInput(route, prompt, file) ==>
              x.sent == Some(BuildPayload(route, ActivePrompt(route, prompt), file)) &&
              x.response == MapOutcome(route, outcome)
    ensures x.response.status == 200 <==> !MissingInput(route, prompt, file) && outcome.Generated?
  {
    if MissingInput(route, prompt, file) then
      Exchange(Rejection(route), None)
    else
      Exchange(MapOutcome(route, outcome), Some(BuildPayload(route, ActivePrompt(route, prompt), file)))
  }
}

/**
 * The client and the server together: a request the browser client builds
 * is received by the route its endpoint names, with the prompt field and
 * the file field multer would extract from the form.
 */
module EndToEnd {
  import opened Wrappers
  import Base64
  import Relay
  import Client

  /** The route the server mounts at `endpoint`, if any. */
  function RouteOf(endpoint: string): (r: Option<Relay.Route>)
    ensures r.Some? ==> Relay.Config(r.value).path == endpoint
    ensures forall route :: Relay.Config(route).path == endpoint ==> r == Some(route)
  {
    if endpoint == "/generate-text" then Some(Relay.GenerateText)
    else if endpoint == "/generate-from-image" then Some(Relay.FromImage)
    else if endpoint == "/generate-from-document" then Some(Relay.FromDocument)
    else if endpoint == "/generate-from-audio" then Some(Relay.FromAudio)
    else None
  }

  /**
   * The line breaks of a text field as the browser's multipart/form-data
   * encoding sends them: a CR not followed by LF and an LF not preceded by
   * CR each become CRLF.
   */
  function NormalizeLineBreaks(s: string): (r: string)
    ensures r == [] <==> s == []
    ensures '\r' !in s && '\n' !in s ==> r == s
  {
    if s == [] then []
    else
      assert s == [s[0]] + s[1..];
      if s[0] == '\r' && |s| > 1 && s[1] == '\n' then "\r\n" + NormalizeLineBreaks(s[2..])
      else if s[0] == '\r' || s[0] == '\n' then "\r\n" + NormalizeLineBreaks(s[1..])
      else [s[0]] + NormalizeLineBreaks(s[1..])
  }

  /** Text already sent with CRLF line breaks is sent unchanged. */
  lemma {:induction false} NormalizeIdempotent(s: string)
    ensures NormalizeLineBreaks(NormalizeLineBreaks(s)) == NormalizeLineBreaks(s)
  {
    if s != [] {
      if s[0] == '\r' && |s| > 1 && s[1] == '\n' {
        NormalizeIdempotent(s[2..]);
        var t := NormalizeLineBreaks(s[2..]);
        assert ("\r\n" + t)[2..] == t;
      } else if s[0] == '\r' || s[0] == '\n' {
        NormalizeIdempotent(s[1..]);
        var t := NormalizeLineBreaks(s[1..]);
        assert ("\r\n" + t)[2..] == t;
      } else {
        NormalizeIdempotent(s[1..]);
        var t := NormalizeLineBreaks(s[1..]);
        assert ([s[0]] + t)[1..] == t;
      }
    }
  }

  /** Every LF in `r` follows a CR. */
  predicate LineFeedsAfterCr(r: string) {
    forall i :: 0 <= i < |r| && r[i] == '\n' ==> 0 < i && r[i - 1] == '\r'
  }

  /** The text sent has no lone LF. */
  lemma {:induction false} NormalizedLineFeeds(s: string)
    ensures LineFeedsAfterCr(NormalizeLineBreaks(s))
  {
    if s != [] {
      var p := if s[0] == '\r' || s[0] == '\n' then "\r\n" else [s[0]];
      if s[0] == '\r' && |s| > 1 && s[1] == '\n' {
        NormalizedLineFeeds(s[2..]);
        LineFeedsOfConcat(p, NormalizeLineBreaks(s[2..]));
      } else {
        NormalizedLineFeeds(s[1..]);
        LineFeedsOfConcat(p, NormalizeLineBreaks(s[1..]));
      }
    }
  }

  /** A prefix ending in CR, or a single character other than CR and LF, keeps the LFs of what follows after a CR. */
  lemma LineFeedsOfConcat(p: string, t: string)
    requires p == "\r\n" || (|p| == 1 && p[0] != '\n' && p[0] != '\r')
    requires LineFeedsAfterCr(t)
    ensures LineFeedsAfterCr(p + t)
  {
    var r := p + t;
    forall i | 0 <= i < |r| && r[i] == '\n'
      ensures 0 < i && r[i - 1] == '\r'
    {
      if i >= |p| {
        assert r[i] == t[i - |p|];
        if i > |p| { assert r[i - 1] == t[i - |p| - 1]; }
      }
    }
  }

  /** The Content-Type of a file part: the file's type, or application/octet-stream when it has none. */
  function PartType(mimeType: string): (t: string)
    ensures t != ""
    ensures mimeType != "" ==> t == mimeType
  {
    if mimeType == "" then "application/octet-stream" else mimeType
  }

  /** `req.body[name]`: the first text field of that name, with its line breaks as sent. */
  function FormText(form: seq<(string, Client.FormValue)>, name: string): (r: Option<string>)
    ensures r.Some? ==> exists i :: 0 <= i < |form| && form[i].0 == name && form[i].1.Field? &&
                                    r.value == NormalizeLineBreaks(form[i].1.text)
    ensures r.None? ==> forall i :: 0 <= i < |form| && form[i].0 == name ==> !form[i].1.Field?
  {
    if form == [] then None
    else if form[0].0 == name && form[0].1.Field? then Some(NormalizeLineBreaks(form[0].1.text))
    else
      var r := FormText(form[1..], name);
      assert forall i :: 0 <= i < |form| - 1 ==> form[1..][i] == form[i + 1];
      r
  }

  /**
   * `req.file` for `upload.single(name)`: the first file field of that name
   * that has a file name, with the Content-Type its part was sent with.
   * multer skips a file part whose file name is empty.
   */
  function FormUpload(form: seq<(string, Client.FormValue)>, name: string): (r: Option<Relay.Upload>)
    ensures r.Some? ==> exists i :: 0 <= i < |form| && form[i].0 == name && form[i].1.Blob? &&
                                    form[i].1.file.name != "" &&
                                    r.value == Relay.Upload(form[i].1.file.bytes, PartType(form[i].1.file.mimeType))
    ensures r.None? ==> forall i :: 0 <= i < |form| && form[i].0 == name && form[i].1.Blob? ==>
                                    form[i].1.file.name == ""
  {
    if form == [] then None
    else if form[0].0 == name && form[0].1.Blob? && form[0].1.file.name != "" then
      Some(Relay.Upload(form[0].1.file.bytes, PartType(form[0].1.file.mimeType)))
    else
      var r := FormUpload(form[1..], name);
      assert forall i :: 0 <= i < |form| - 1 ==> form[1..][i] == form[i + 1];
      r
  }

  /** The server's handling of `req`; None when no route is mounted at its endpoint. */
  function Deliver(req: Client.Request, outcome: Relay.Outcome): (x: Option<Relay.Exchange>)
    ensures x.Some? <==> RouteOf(req.endpoint).Some?
  {
    match RouteOf(req.endpoint)
    case None => None
    case Some(route) =>
      var field := Relay.Config(route).fileField;
      var file := if field.Some? then FormUpload(req.form, field.value) else None;
      Some(Relay.Handle(route, FormText(req.form, "prompt"), file, outcome))
  }

  /** The text prompt a payload carries. */
  function PromptOf(p: Relay.Payload): string {
    match p.contents
    case PromptOnly(prompt) => prompt
    case Parts(parts) => if |parts| > 0 && parts[0].TextPart? then parts[0].text else ""
  }

  /**
   * The payload carries the file inline: its data is the base64 encoding of
   * the bytes, decoding it gives them back, and its MIME type is the one the
   * file part was sent with.
   */
  predicate FileSent(p: Relay.Payload, f: Client.ClientFile) {
    p.contents.Parts? && |p.contents.parts| == 2 && p.contents.parts[1].InlineData? &&
    p.contents.parts[1].data == Base64.Encode(f.bytes) &&
    Base64.Decode(p.contents.parts[1].data) == Some(f.bytes) &&
    p.contents.parts[1].mimeType == PartType(f.mimeType)
  }

  predicate KnownMode(mode: Option<string>) {
    mode in {Some("text"), Some("image"), Some("document"), Some("audio")}
  }

  /**
   * A route given a non-empty prompt, and a file where it takes one, calls
   * the model with that prompt and the file's bytes, and does not answer 400.
   */
  lemma Accepted(route: Relay.Route, prompt: string, file: Option<Relay.Upload>, outcome: Relay.Outcome)
    requires prompt != "" && (Relay.TakesFile(route) ==> file.Some?)
    ensures var x := Relay.Handle(route, Some(prompt), file, outcome);
            x.response.status in {200, 500} && x.sent.Some? && PromptOf(x.sent.value) == prompt &&
            (Relay.TakesFile(route) ==>
               x.sent.value.contents.Parts? && |x.sent.value.contents.parts| == 2 &&
               x.sent.value.contents.parts[1].data == Base64.Encode(file.value.buffer) &&
               Base64.Decode(x.sent.value.contents.parts[1].data) == Some(file.value.buffer) &&
               x.sent.value.contents.parts[1].mimeType == file.value.mimetype)
  {
    assert !Relay.MissingInput(route, Some(prompt), file);
  }

  /** The text route receives the client's single prompt field, with its line breaks as sent. */
  lemma TextDelivery(prompt: string, outcome: Relay.Outcome)
    requires prompt != ""
    ensures var x := Deliver(Client.Request("/generate-text", [("prompt", Client.Field(prompt))]), outcome);
            x.Some? && x.value.response.status in {200, 500} && x.value.sent.Some? &&
            PromptOf(x.value.sent.value) == NormalizeLineBreaks(prompt)
  {
    assert FormText([("prompt", Client.Field(prompt))], "prompt") == Some(NormalizeLineBreaks(prompt));
    Accepted(Relay.GenerateText, NormalizeLineBreaks(prompt), None, outcome);
  }

  /** multer finds the file under its own field name if it has a file name, and the prompt field after it. */
  lemma FileForm(name: string, f: Client.ClientFile, prompt: string)
    requires name != "prompt"
    ensures FormText([(name, Client.Blob(f)), ("prompt", Client.Field(prompt))], "prompt") ==
            Some(NormalizeLineBreaks(prompt))
    ensures FormUpload([(name, Client.Blob(f)), ("prompt", Client.Field(prompt))], name) ==
            if f.name != "" then Some(Relay.Upload(f.bytes, PartType(f.mimeType))) else None
  {
    var form := [(name, Client.Blob(f)), ("prompt", Client.Field(prompt))];
    assert FormText(form[1..], "prompt") == Some(NormalizeLineBreaks(prompt));
  }

  /** How Deliver hands a request to the route mounted at its endpoint. */
  lemma DeliverTo(route: Relay.Route, req: Client.Request, outcome: Relay.Outcome)
    requires RouteOf(req.endpoint) == Some(route)
    ensures Relay.TakesFile(route) ==>
              Deliver(req, outcome) ==
              Some(Relay.Handle(route, FormText(req.form, "prompt"),
                                FormUpload(req.form, Relay.Config(route).fileField.value), outcome))
  {
  }

  /**
   * A file route receives the client's prompt field and, when the file has a
   * name, its file field, as the browser sends them.
   */
  lemma FileDelivery(route: Relay.Route, f: Client.ClientFile, prompt: string, outcome: Relay.Outcome)
    requires Relay.TakesFile(route)
    ensures var name := Relay.Config(route).fileField.value;
            Deliver(Client.Request(Relay.Config(route).path,
                                   [(name, Client.Blob(f)), ("prompt", Client.Field(prompt))]), outcome) ==
            Some(Relay.Handle(route, Some(NormalizeLineBreaks(prompt)),
                              if f.name != "" then Some(Relay.Upload(f.bytes, PartType(f.mimeType))) else None,
                              outcome))
  {
    var name := Relay.Config(route).fileField.value;
    var req := Client.Request(Relay.Config(route).path, [(name, Client.Blob(f)), ("prompt", Client.Field(prompt))]);
    assert name != "prompt" by {
      match route
      case FromImage =>
      case FromDocument =>
      case FromAudio =>
    }
    FileForm(name, f, prompt);
    DeliverTo(route, req, outcome);
  }

  /**
   * Pressing generate: the client builds its request (no call is made when
   * it throws) and the server handles it.
   */
  function Submit(mode: Option<string>, prompts: Client.PromptInputs,
                  files: map<string, Option<Client.ClientFile>>, outcome: Relay.Outcome): (x: Option<Relay.Exchange>)
    ensures x.None? <==> Client.BuildRequest(mode, prompts, files).Failure?
  {
    match Client.BuildRequest(mode, prompts, files)
    case Failure(_) => None
    case Success(req) => Deliver(req, outcome)
  }

  /**
   * A text request reaches the server exactly when the prompt is not blank;
   * it is then accepted and the model gets the user's prompt as sent.
   */
  lemma SubmitText(prompts: Client.PromptInputs, files: map<string, Option<Client.ClientFile>>, outcome: Relay.Outcome)
    ensures var x := Submit(Some("text"), prompts, files, outcome);
            (x.Some? <==> !Client.Blank(prompts.text)) &&
            (x.Some? ==> x.value.response.status in {200, 500} && x.value.sent.Some? &&
                         PromptOf(x.value.sent.value) == NormalizeLineBreaks(prompts.text))
  {
    if !Client.Blank(prompts.text) {
      assert prompts.text != "";
      TextDelivery(prompts.text, outcome);
    }
  }

  /**
   * An image request reaches the server exactly when an image is stored. An
   * image without a file name is dropped by multer, so the route rejects the
   * request; otherwise it is accepted, and the model gets the client's prompt
   * (the client's own default when the field is empty) and the stored image.
   */
  lemma SubmitImage(prompts: Client.PromptInputs, files: map<string, Option<Client.ClientFile>>, outcome: Relay.Outcome)
    ensures var x := Submit(Some("image"), prompts, files, outcome);
            var f := Client.Stored(files, "image");
            (x.Some? <==> f.Some?) &&
            (x.Some? && f.value.name == "" ==> x.value == Relay.Exchange(Relay.Rejection(Relay.FromImage), None)) &&
            (x.Some? && f.value.name != "" ==>
               x.value.response.status in {200, 500} && x.value.sent.Some? &&
               PromptOf(x.value.sent.value) ==
               NormalizeLineBreaks(if prompts.image != "" then prompts.image else "Describe this image") &&
               FileSent(x.value.sent.value, f.value))
  {
    var f := Client.Stored(files, "image");
    if f.Some? {
      var prompt := Client.OrDefault(prompts.image, "Describe this image");
      var req := Client.Request("/generate-from-image", [("image", Client.Blob(f.value)), ("prompt", Client.Field(prompt))]);
      assert Client.BuildRequest(Some("image"), prompts, files) == Success(req);
      FileDelivery(Relay.FromImage, f.value, prompt, outcome);
      if f.value.name != "" {
        Accepted(Relay.FromImage, NormalizeLineBreaks(prompt), Some(Relay.Upload(f.value.bytes, PartType(f.value.mimeType))), outcome);
      }
    }
  }

  /**
   * A document request reaches the server exactly when a document is stored.
   * It is rejected when the document has no file name, and otherwise accepted
   * with the client's prompt and the stored document.
   */
  lemma SubmitDocument(prompts: Client.PromptInputs, files: map<string, Option<Client.ClientFile>>, outcome: Relay.Outcome)
    ensures var x := Submit(Some("document"), prompts, files, outcome);
            var f := Client.Stored(files, "document");
            (x.Some? <==> f.Some?) &&
            (x.Some? && f.value.name == "" ==> x.value == Relay.Exchange(Relay.Rejection(Relay.FromDocument), None)) &&
            (x.Some? && f.value.name != "" ==>
               x.value.response.status in {200, 500} && x.value.sent.Some? &&
               PromptOf(x.value.sent.value) ==
               NormalizeLineBreaks(if prompts.document != "" then prompts.document else "Please analyze and summarize this document") &&
               FileSent(x.value.sent.value, f.value))
  {
    var f := Client.Stored(files, "document");
    if f.Some? {
      var prompt := Client.OrDefault(prompts.document, "Please analyze and summarize this document");
      var req := Client.Request("/generate-from-document", [("document", Client.Blob(f.value)), ("prompt", Client.Field(prompt))]);
      assert Client.BuildRequest(Some("document"), prompts, files) == Success(req);
      FileDelivery(Relay.FromDocument, f.value, prompt, outcome);
      if f.value.name != "" {
        Accepted(Relay.FromDocument, NormalizeLineBreaks(prompt), Some(Relay.Upload(f.value.bytes, PartType(f.value.mimeType))), outcome);
      }
    }
  }

  /**
   * An audio request reaches the server exactly when a recording is stored.
   * It is rejected when the recording has no file name, and otherwise
   * accepted with the client's prompt and the stored recording.
   */
  lemma SubmitAudio(prompts: Client.PromptInputs, files: map<string, Option<Client.ClientFile>>, outcome: Relay.Outcome)
    ensures var x := Submit(Some("audio"), prompts, files, outcome);
            var f := Client.Stored(files, "audio");
            (x.Some? <==> f.Some?) &&
            (x.Some? && f.value.name == "" ==> x.value == Relay.Exchange(Relay.Rejection(Relay.FromAudio), None)) &&
            (x.Some? && f.value.name != "" ==>
               x.value.response.status in {200, 500} && x.value.sent.Some? &&
               PromptOf(x.value.sent.value) ==
               NormalizeLineBreaks(if prompts.audio != "" then prompts.audio else "Please transcribe this audio") &&
               FileSent(x.value.sent.value, f.value))
  {
    var f := Client.Stored(files, "audio");
    if f.Some? {
      var prompt := Client.OrDefault(prompts.audio, "Please transcribe this audio");
      var req := Client.Request("/generate-from-audio", [("audio", Client.Blob(f.value)), ("prompt", Client.Field(prompt))]);
      assert Client.BuildRequest(Some("audio"), prompts, files) == Success(req);
      FileDelivery(Relay.FromAudio, f.value, prompt, outcome);
      if f.value.name != "" {
        Accepted(Relay.FromAudio, NormalizeLineBreaks(prompt), Some(Relay.Upload(f.value.bytes, PartType(f.value.mimeType))), outcome);
      }
    }
  }

  /** With the mode undefined the client posts an empty form to the text route, which rejects it. */
  lemma SubmitUnknownMode(mode: Option<string>, prompts: Client.PromptInputs,
                          files: map<string, Option<Client.ClientFile>>, outcome: Relay.Outcome)
    requires !KnownMode(mode)
    ensures Submit(mode, prompts, files, outcome) == Some(Relay.Exchange(Relay.Rejection(Relay.GenerateText), None))
  {
    assert FormText([], "prompt") == None;
  }
}

/**
 * The browser client's decision logic (public/app.js, class
 * GeminiCommandCenter): its state (the current mode and the stored files),
 * the request that `generate` builds for each mode, and the keyboard
 * shortcuts. The DOM, `fetch` and timing are not modelled; the text of the
 * four prompt fields is a parameter.
 */
module Client {
  import opened Wrappers
  import Base64

  /** The modes in the order of the digit shortcuts 1 to 4. */
  const Modes: seq<string> := ["text", "image", "document", "audio"]

  /** A file the user picked or dropped. */
  datatype ClientFile = ClientFile(name: string, mimeType: string, bytes: seq<Base64.Byte>)

  /** The value of one multipart form field. */
  datatype FormValue = Field(text: string) | Blob(file: ClientFile)

  /** The request `generate` sends: the endpoint and the form fields in the order appended. */
  datatype Request = Request(endpoint: string, form: seq<(string, FormValue)>)

  /** The current text of the four prompt inputs (text-prompt, image-prompt, doc-prompt, audio-prompt). */
  datatype PromptInputs = PromptInputs(text: string, image: string, document: string, audio: string)

  /** The characters JavaScript's `String.prototype.trim` removes: white space and line terminators. */
  predicate IsJsWhitespace(c: char) {
    c == '\t' || c == '\n' || c == '\U{000B}' || c == '\U{000C}' || c == '\r' || c == ' ' ||
    c == '\U{00A0}' || c == '\U{1680}' || ('\U{2000}' <= c <= '\U{200A}') ||
    c == '\U{2028}' || c == '\U{2029}' || c == '\U{202F}' || c == '\U{205F}' ||
    c == '\U{3000}' || c == '\U{FEFF}'
  }

  /** Nothing but white space. */
  ghost predicate Blank(s: string) {
    forall i :: 0 <= i < |s| ==> IsJsWhitespace(s[i])
  }

  /** `s` without its leading white space. */
  function TrimStart(s: string): (r: string)
    ensures |r| <= |s| && r == s[|s| - |r|..]
    ensures r != [] ==> !IsJsWhitespace(r[0])
    ensures Blank(s[..|s| - |r|])
    decreases |s|
  {
    if s != [] && IsJsWhitespace(s[0]) then
      var r := TrimStart(s[1..]);
      assert s[..|s| - |r|] == [s[0]] + s[1..][..|s| - 1 - |r|];
      r
    else s
  }

  /** `s` without its trailing white space. */
  function TrimEnd(s: string): (r: string)
    ensures |r| <= |s| && r == s[..|r|]
    ensures r != [] ==> !IsJsWhitespace(r[|r| - 1])
    ensures Blank(s[|r|..])
    decreases |s|
  {
    if s != [] && IsJsWhitespace(s[|s| - 1]) then
      var r := TrimEnd(s[..|s| - 1]);
      assert s[|r|..] == s[..|s| - 1][|r|..] + [s[|s| - 1]];
      r
    else s
  }

  /** JavaScript's `s.trim()`. */
  function Trim(s: string): (r: string)
    ensures r == [] <==> Blank(s)
  {
    var t := TrimStart(s);
    var r := TrimEnd(t);
    assert t != [] ==> r != [] by {
      if t != [] {
        assert IsJsWhitespace(t[0]) || t[0] == r[0];
      }
    }
    assert Blank(s) ==> t == [] by {
      if t != [] {
        assert s[|s| - |t|] == t[0];
      }
    }
    assert t == [] ==> Blank(s) by {
      if t == [] {
        assert s[..|s|] == s;
      }
    }
    r
  }

  /** JavaScript's `value || fallback` for a string value. */
  function OrDefault(value: string, fallback: string): string {
    if value != "" then value else fallback
  }

  /** A stored file, if the slot holds one; a missing key reads as `undefined`. */
  function Stored(files: map<string, Option<ClientFile>>, key: string): Option<ClientFile> {
    if key in files then files[key] else None
  }

  /**
   * The request `generate` builds, or the message of the error it throws
   * before any network call. A mode outside the four reaches no case of the
   * `switch`, so the initial endpoint is used with an empty form.
   */
  function BuildRequest(mode: Option<string>, prompts: PromptInputs,
                        files: map<string, Option<ClientFile>>): (r: Result<Request, string>)
    ensures mode == Some("text") ==>
              r == (if Blank(prompts.text) then Failure("Please enter a prompt")
                    else Success(Request("/generate-text", [("prompt", Field(prompts.text))])))
    ensures mode == Some("image") && Stored(files, "image").None? ==> r == Failure("Please upload an image")
    ensures mode == Some("document") && Stored(files, "document").None? ==> r == Failure("Please upload a document")
    ensures mode == Some("audio") && Stored(files, "audio").None? ==> r == Failure("Please upload an audio file")
    ensures r.Failure? ==> mode in {Some("text"), Some("image"), Some("document"), Some("audio")}
    ensures mode == Some("image") && Stored(files, "image").Some? ==>
              r.Success? &&
              r.value.endpoint == "/generate-from-image" && |r.value.form| == 2 &&
              r.value.form[0] == ("image", Blob(Stored(files, "image").value)) &&
              r.value.form[1] == ("prompt", Field(if prompts.image != "" then prompts.image else "Describe this image"))
    ensures mode == Some("document") && Stored(files, "document").Some? ==>
              r.Success? &&
              r.value.endpoint == "/generate-from-document" && |r.value.form| == 2 &&
              r.value.form[0] == ("document", Blob(Stored(files, "document").value)) &&
              r.value.form[1] == ("prompt", Field(if prompts.document != "" then prompts.document
                                                  else "Please analyze and summarize this document"))
    ensures mode == Some("audio") && Stored(files, "audio").Some? ==>
              r.Success? &&
              r.value.endpoint == "/generate-from-audio" && |r.value.form| == 2 &&
              r.value.form[0] == ("audio", Blob(Stored(files, "audio").value)) &&
              r.value.form[1] == ("prompt", Field(if prompts.audio != "" then prompts.audio
                                                  else "Please transcribe this audio"))
    ensures mode !in {Some("text"), Some("image"), Some("document"), Some("audio")} ==>
              r == Success(Request("/generate-text", []))
  {
    if mode == Some("text") then
      if Trim(prompts.text) == "" then Failure("Please enter a prompt")
      else Success(Request("/generate-text", [("prompt", Field(prompts.text))]))
    else if mode == Some("image") then
      match Stored(files, "image")
      case None => Failure("Please upload an image")
      case Some(f) =>
        Success(Request("/generate-from-image",
                        [("image", Blob(f)), ("prompt", Field(OrDefault(prompts.image, "Describe this image")))]))
    else if mode == Some("document") then
      match Stored(files, "document")
      case None => Failure("Please upload a document")
      case Some(f) =>
        Success(Request("/generate-from-document",
                        [("document", Blob(f)),
                         ("prompt", Field(OrDefault(prompts.document, "Please analyze and summarize this document")))]))
    else if mode == Some("audio") then
      match Stored(files, "audio")
      case None => Failure("Please upload an audio file")
      case Some(f) =>
        Success(Request("/generate-from-audio",
                        [("audio", Blob(f)), ("prompt", Field(OrDefault(prompts.audio, "Please transcribe this audio")))]))
    else
      Success(Request("/generate-text", []))
  }

  /** JavaScript's `a < b` on strings: lexicographic order on characters. */
  predicate JsLess(a: string, b: string)
    decreases |a|
  {
    if b == [] then false
    else if a == [] then true
    else if a[0] != b[0] then a[0] < b[0]
    else JsLess(a[1..], b[1..])
  }

  /** JsLess is a strict total order: exactly one of a < b, a == b and b < a holds. */
  lemma {:induction false} JsLessTotalOrder(a: string, b: string)
    ensures a == b || JsLess(a, b) || JsLess(b, a)
    ensures !(JsLess(a, b) && JsLess(b, a))
    ensures a == b ==> !JsLess(a, b)
    decreases |a|
  {
    if a != [] && b != [] && a[0] == b[0] {
      JsLessTotalOrder(a[1..], b[1..]);
      assert a == [a[0]] + a[1..] && b == [b[0]] + b[1..];
    }
  }

  /** The guard `e.key >= '1' && e.key <= '4'`. */
  predicate DigitKeyGuard(key: string) {
    !JsLess(key, "1") && !JsLess("4", key)
  }

  /** The guard admits exactly the keys that start with 1, 2 or 3, and the key "4" itself. */
  lemma DigitKeyGuardExact(key: string)
    ensures DigitKeyGuard(key) <==> |key| >= 1 && (('1' <= key[0] <= '3') || key == "4")
  {
    if key == [] {
      assert JsLess(key, "1");
    } else if key[0] == '1' {
      assert !JsLess(key[1..], "1"[1..]);
      assert !JsLess("4", key);
    } else if key[0] == '4' {
      assert JsLess("4", key) == JsLess("4"[1..], key[1..]);
      assert key == "4" <==> key[1..] == [];
    } else {
      assert JsLess(key, "1") == (key[0] < '1');
      assert JsLess("4", key) == ('4' < key[0]);
    }
  }

  predicate IsDigit(c: char) { '0' <= c <= '9' }

  /** The length of the run of decimal digits at the start of `s`. */
  function DigitRun(s: string): (n: nat)
    ensures n <= |s|
    ensures forall i :: 0 <= i < n ==> IsDigit(s[i])
    ensures n < |s| ==> !IsDigit(s[n])
    decreases |s|
  {
    if s != [] && IsDigit(s[0]) then 1 + DigitRun(s[1..]) else 0
  }

  /** 10 to the power `n`. */
  function Pow10(n: nat): (p: nat)
    ensures p >= 1
  {
    if n == 0 then 1 else 10 * Pow10(n - 1)
  }

  /** The value of a string of decimal digits: it has no more digits than it is long. */
  function DecimalValue(ds: string): (v: nat)
    requires forall i :: 0 <= i < |ds| ==> IsDigit(ds[i])
    ensures v < Pow10(|ds|)
    decreases |ds|
  {
    if ds == [] then 0
    else
      var last := ds[|ds| - 1];
      assert IsDigit(last);
      var high := DecimalValue(ds[..|ds| - 1]);
      assert high + 1 <= Pow10(|ds| - 1);
      10 * high + (last as int - '0' as int)
  }

  /** `parseInt(s)` for a string that starts with a digit: the value of its leading digits. */
  function LeadingInt(s: string): (v: nat)
    requires |s| >= 1 && IsDigit(s[0])
    ensures DigitRun(s) == 1 ==> v == s[0] as int - '0' as int
    ensures v >= (s[0] as int - '0' as int)
  {
    var n := DigitRun(s);
    LeadingBound(s[..n]);
    DecimalValue(s[..n])
  }

  /** A digit string is worth at least its first digit, and exactly it when it has one digit. */
  lemma {:induction false} LeadingBound(ds: string)
    requires |ds| >= 1 && forall i :: 0 <= i < |ds| ==> IsDigit(ds[i])
    ensures DecimalValue(ds) >= ds[0] as int - '0' as int
    ensures |ds| == 1 ==> DecimalValue(ds) == ds[0] as int - '0' as int
    decreases |ds|
  {
    if |ds| > 1 {
      var prefix := ds[..|ds| - 1];
      assert prefix[0] == ds[0];
      LeadingBound(prefix);
    } else {
      assert ds[..0] == [];
    }
  }

  /** `modes[i]`: a mode, or `undefined` outside the array. */
  function ModeAt(i: int): (m: Option<string>)
    ensures m.Some? <==> 0 <= i < 4
    ensures m.Some? ==> m.value == Modes[i]
  {
    if 0 <= i < |Modes| then Some(Modes[i]) else None
  }

  /** What a key press does. */
  datatype KeyAction = NoAction | RunGenerate | SelectMode(mode: Option<string>)

  /**
   * The keydown listener: Ctrl/Cmd+Enter runs `generate`; a key the digit
   * guard admits, outside a text field, switches to `modes[parseInt(key) - 1]`,
   * which is `undefined` for keys such as "10" or "35".
   */
  function KeyDown(key: string, metaKey: bool, ctrlKey: bool, inTextField: bool): (a: KeyAction)
    ensures a == RunGenerate <==> (metaKey || ctrlKey) && key == "Enter"
    ensures (metaKey || ctrlKey) && key == "Enter" ==> !DigitKeyGuard(key)
    ensures a.SelectMode? <==> !((metaKey || ctrlKey) && key == "Enter") && DigitKeyGuard(key) && !inTextField
    ensures a.SelectMode? ==> |key| >= 1 && '1' <= key[0] <= '4'
    ensures |key| == 1 && '1' <= key[0] <= '4' && !inTextField ==>
              a == SelectMode(Some(Modes[key[0] as int - '1' as int]))
    ensures a.SelectMode? && a.mode.None? ==> |key| >= 2 && IsDigit(key[1])
  {
    DigitKeyGuardExact(key);
    if (metaKey || ctrlKey) && key == "Enter" then
      RunGenerate
    else if DigitKeyGuard(key) && !inTextField then
      assert DigitRun(key) == 1 ==> |key| == 1 || !IsDigit(key[1]);
      SelectMode(ModeAt(LeadingInt(key) - 1))
    else
      NoAction
  }

  /** The files a fresh page holds: three empty slots. */
  function InitialFiles(): (m: map<string, Option<ClientFile>>)
    ensures forall k :: k in m <==> k == "image" || k == "document" || k == "audio"
    ensures forall k :: k in m ==> m[k].None?
  {
    map["image" := None, "document" := None, "audio" := None]
  }

  /** The page controller: its current mode and the uploaded files by slot. */
  class CommandCenter {
    var currentMode: Option<string>
    var files: map<string, Option<ClientFile>>

    constructor ()
      ensures currentMode == Some("text")
      ensures files == InitialFiles()
    {
      currentMode := Some("text");
      files := InitialFiles();
    }

    /** A mode button or digit key selects `mode` (possibly `undefined`). */
    method SwitchMode(mode: Option<string>)
      modifies this
      ensures currentMode == mode
      ensures files == old(files)
    {
      currentMode := mode;
    }

    /** A picked or dropped file is stored in slot `fileKey`, replacing the previous one. */
    method HandleFile(file: ClientFile, fileKey: string)
      modifies this
      ensures files == old(files)[fileKey := Some(file)]
      ensures currentMode == old(currentMode)
    {
      files := files[fileKey := Some(file)];
    }

    /** The keydown listener; `generate` reports whether a generation was triggered. */
    method OnKeyDown(key: string, metaKey: bool, ctrlKey: bool, inTextField: bool) returns (generate: bool)
      modifies this
      ensures generate <==> KeyDown(key, metaKey, ctrlKey, inTextField) == RunGenerate
      ensures KeyDown(key, metaKey, ctrlKey, inTextField).SelectMode? ==>
                currentMode == KeyDown(key, metaKey, ctrlKey, inTextField).mode
      ensures !KeyDown(key, metaKey, ctrlKey, inTextField).SelectMode? ==> currentMode == old(currentMode)
      ensures files == old(files)
    {
      var action := KeyDown(key, metaKey, ctrlKey, inTextField);
      generate := action == RunGenerate;
      if action.SelectMode? {
        SwitchMode(action.mode);
      }
    }

    /** The request `generate` would send now, or the error it would show. */
    method PrepareRequest(prompts: PromptInputs) returns (r: Result<Request, string>)
      ensures r == BuildRequest(currentMode, prompts, files)
    {
      r := BuildRequest(currentMode, prompts, files);
    }
  }

  /**
   * A session on a fresh page: pressing 2 selects image mode, generating
   * before an upload fails, and after an upload the request goes to the
   * image endpoint carrying that file.
   */
  method ImageSession(f: ClientFile, prompts: PromptInputs) returns (before: Result<Request, string>, after: Result<Request, string>)
    ensures before == Failure("Please upload an image")
    ensures after.Success? && after.value.endpoint == "/generate-from-image"
    ensures |after.value.form| == 2 && after.value.form[0] == ("image", Blob(f))
  {
    var page := new CommandCenter();
    var generate := page.OnKeyDown("2", false, false, false);
    before := page.PrepareRequest(prompts);
    page.HandleFile(f, "image");
    after := page.PrepareRequest(prompts);
  }
}

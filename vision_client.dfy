/** The request side of the image-description call: the prompt text with its
    optional document-language hint, the chat message carrying the image as a
    data URI, and the local client's payload-size guard, which answers with a
    fixed reply instead of sending an oversized image. */
module VisionClient {
  import opened Wrappers
  import opened Text

  // ---------------------------------------------------------------------------
  // Chat messages
  // ---------------------------------------------------------------------------

  /** One item of a message's content list: its `type`, its `text` if any, and
      `image_url.url` if both keys are present. */
  datatype Part = Part(kind: string, text: Option<string>, imageUrl: Option<string>)

  /** A message's `content`: absent, a plain string, or a list of items. */
  datatype Content = NoContent | Plain(body: string) | Items(parts: seq<Part>)

  datatype Message = Message(role: string, content: Content)

  /** The exceptions the guard can raise on a malformed image item. */
  datatype GuardError =
    | MissingImageUrl  // `c["image_url"]["url"]` raises KeyError
    | MissingComma     // `url.split(",")[1]` raises IndexError

  /** What the guard decides about a payload. */
  datatype Verdict = Pass | Oversized | Raises(error: GuardError)

  /** The request `create` posts when the guard lets the payload through. */
  datatype Request = Request(model: string, messages: seq<Message>, temperature: real,
                             maxTokens: int, stream: bool)

  /** What `create` does: answer at once, post a request, or raise. */
  datatype CreateOutcome = Answer(content: string) | Post(request: Request) | Fail(error: GuardError)

  const MaxImageChars := 3_000_000
  const TooLargeReply := "Image too large to process."
  const DataImage := "data:image"

  /** `url.split(",")[1]`: the text between the first comma and the next one. */
  function DataField(url: string): Option<string>
  {
    var pieces := Split(url, ',');
    if |pieces| >= 2 then Some(pieces[1]) else None
  }

  /** The guard's decision on one content item. */
  function PartVerdict(c: Part): Verdict
  {
    if c.kind != "image_url" then Pass
    else if c.imageUrl.None? then Raises(MissingImageUrl)
    else if !Contains(c.imageUrl.value, DataImage) then Pass
    else match DataField(c.imageUrl.value)
      case None => Raises(MissingComma)
      case Some(data) => if |data| > MaxImageChars then Oversized else Pass
  }

  /** The verdict of the first item that stops the scan, `Pass` if none does. */
  function FirstStop(parts: seq<Part>): Verdict
  {
    if parts == [] then Pass
    else if PartVerdict(parts[0]) != Pass then PartVerdict(parts[0])
    else FirstStop(parts[1..])
  }

  /** The items of a message that the guard looks at: only list contents. */
  function ItemsOf(m: Message): seq<Part>
  {
    if m.content.Items? then m.content.parts else []
  }

  /** All items the guard scans, message by message. */
  function AllItems(messages: seq<Message>): seq<Part>
  {
    if messages == [] then []
    else AllItems(messages[..|messages| - 1]) + ItemsOf(messages[|messages| - 1])
  }

  /** The guard's decision on a whole payload. */
  function PayloadVerdict(messages: seq<Message>): Verdict
  {
    FirstStop(AllItems(messages))
  }

  lemma {:induction false} FirstStopAppend(a: seq<Part>, b: seq<Part>)
    ensures FirstStop(a + b) == if FirstStop(a) != Pass then FirstStop(a) else FirstStop(b)
  {
    if a == [] {
      assert a + b == b;
    } else {
      assert (a + b)[0] == a[0];
      assert (a + b)[1..] == a[1..] + b;
      FirstStopAppend(a[1..], b);
    }
  }

  /** The inner loop of the guard, over the items of one message: an image
      item with a data URI is measured by the text after its first comma, and
      the scan returns at the first oversized image or malformed item. */
  method CheckItems(parts: seq<Part>) returns (v: Verdict)
    ensures v == FirstStop(parts)
  {
    for j := 0 to |parts|
      invariant FirstStop(parts[..j]) == Pass
    {
      FirstStopAppend(parts[..j], [parts[j]]);
      assert parts[..j + 1] == parts[..j] + [parts[j]];
      var c := parts[j];
      v := Pass;
      if c.kind == "image_url" {
        if c.imageUrl.None? {
          v := Raises(MissingImageUrl);
        } else if Contains(c.imageUrl.value, DataImage) {
          var pieces := Split(c.imageUrl.value, ',');
          if |pieces| < 2 {
            v := Raises(MissingComma);
          } else {
            var imageData := pieces[1];
            if |imageData| > MaxImageChars {
              v := Oversized;
            }
          }
        }
      }
      assert v == PartVerdict(c);
      if v != Pass {
        FirstStopAppend(parts[..j + 1], parts[j + 1..]);
        assert parts[..j + 1] + parts[j + 1..] == parts;
        return;
      }
    }
    assert parts[..|parts|] == parts;
    return Pass;
  }

  /** The nested scan of `create`: for each message with a content list, for
      each image item with a data URI, stop at the first oversized image (or at
      the first item that raises). */
  method CheckPayload(messages: seq<Message>) returns (v: Verdict)
    ensures v == PayloadVerdict(messages)
  {
    for i := 0 to |messages|
      invariant FirstStop(AllItems(messages[..i])) == Pass
    {
      assert messages[..i + 1][..i] == messages[..i];
      FirstStopAppend(AllItems(messages[..i]), ItemsOf(messages[i]));
      if messages[i].content.Items? {
        v := CheckItems(messages[i].content.parts);
        if v != Pass {
          PrefixStops(messages, i + 1);
          return;
        }
      }
    }
    assert messages[..|messages|] == messages;
    return Pass;
  }

  /** Once a prefix of the messages stops the scan, the whole payload stops
      with the same verdict. */
  lemma {:induction false} PrefixStops(messages: seq<Message>, i: nat)
    requires i <= |messages|
    ensures FirstStop(AllItems(messages[..i])) != Pass ==>
      PayloadVerdict(messages) == FirstStop(AllItems(messages[..i]))
    decreases |messages| - i
  {
    if i < |messages| {
      assert messages[..i + 1][..i] == messages[..i];
      FirstStopAppend(AllItems(messages[..i]), ItemsOf(messages[i]));
      PrefixStops(messages, i + 1);
    } else {
      assert messages[..i] == messages;
    }
  }

  /** `Completions.create` of the local client: the guard first; an oversized
      image is answered with the fixed reply and nothing is posted. */
  method Create(model: string, messages: seq<Message>, temperature: real, maxTokens: int,
                stream: bool)
    returns (outcome: CreateOutcome)
    ensures PayloadVerdict(messages) == Oversized <==> outcome == Answer(TooLargeReply)
    ensures PayloadVerdict(messages) == Pass <==>
      outcome == Post(Request(model, messages, temperature, maxTokens, stream))
    ensures PayloadVerdict(messages).Raises? ==> outcome == Fail(PayloadVerdict(messages).error)
    ensures outcome.Fail? ==> PayloadVerdict(messages).Raises?
  {
    var verdict := CheckPayload(messages);
    match verdict
    case Oversized => outcome := Answer(TooLargeReply);
    case Raises(e) => outcome := Fail(e);
    case Pass => outcome := Post(Request(model, messages, temperature, maxTokens, stream));
  }

  // ---------------------------------------------------------------------------
  // What the guard lets through
  // ---------------------------------------------------------------------------

  /** The rule for one image item whose URL holds a data URI: what counts is
      the text `d` between the first comma and the next one (or the end), and
      the item is refused exactly when `d` is longer than 3,000,000 characters. */
  lemma ImageItemVerdict(text: Option<string>, p: string, d: string, rest: string)
    requires ',' !in p && ',' !in d
    requires rest == [] || rest[0] == ','
    requires Contains(p + [','] + d + rest, DataImage)
    ensures PartVerdict(Part("image_url", text, Some(p + [','] + d + rest)))
      == if |d| > MaxImageChars then Oversized else Pass
  {
    DataFieldAfterComma(p, d, rest);
  }

  /** The data field of a URL is the text between its first two commas. */
  lemma DataFieldAfterComma(p: string, d: string, rest: string)
    requires ',' !in p && ',' !in d
    requires rest == [] || rest[0] == ','
    ensures DataField(p + [','] + d + rest) == Some(d)
  {
    SplitAtSep(p, ',', d + rest);
    var tail := Split(d + rest, ',');
    if rest == [] {
      assert d + rest == d;
      SplitWithoutSep(d, ',');
    } else {
      assert d + rest == d + [','] + rest[1..];
      SplitAtSep(d, ',', rest[1..]);
    }
    assert tail[0] == d;
    assert p + [','] + d + rest == p + [','] + (d + rest);
    assert Split(p + [','] + d + rest, ',') == [p] + tail;
  }

  /** An image item whose data URI has no comma makes `split(",")[1]` raise. */
  lemma ImageItemWithoutComma(text: Option<string>, url: string)
    requires ',' !in url && Contains(url, DataImage)
    ensures PartVerdict(Part("image_url", text, Some(url))) == Raises(MissingComma)
  {
    SplitWithoutSep(url, ',');
  }

  /** Only image items are looked at: every other item passes, whatever it holds. */
  lemma OtherItemsPass(c: Part)
    requires c.kind != "image_url"
    ensures PartVerdict(c) == Pass
  {
  }

  /** A payload passes exactly when every item it scans passes. */
  lemma {:induction false} FirstStopPassIff(parts: seq<Part>)
    ensures FirstStop(parts) == Pass <==> forall k :: 0 <= k < |parts| ==> PartVerdict(parts[k]) == Pass
  {
    if parts != [] {
      FirstStopPassIff(parts[1..]);
      assert forall k :: 1 <= k < |parts| ==> parts[k] == parts[1..][k - 1];
    }
  }

  /** The scan stops at the first item that does not pass, with its verdict. */
  lemma {:induction false} FirstStopAt(parts: seq<Part>, k: nat)
    requires k < |parts| && PartVerdict(parts[k]) != Pass
    requires forall l :: 0 <= l < k ==> PartVerdict(parts[l]) == Pass
    ensures FirstStop(parts) == PartVerdict(parts[k])
  {
    if k > 0 {
      assert PartVerdict(parts[0]) == Pass;
      assert forall l :: 0 <= l < k - 1 ==> parts[1..][l] == parts[l + 1];
      FirstStopAt(parts[1..], k - 1);
    }
  }

  /** A scan that stops, stops at some item after items that all pass. */
  lemma {:induction false} FirstStopFound(parts: seq<Part>) returns (k: nat)
    requires FirstStop(parts) != Pass
    ensures k < |parts| && PartVerdict(parts[k]) == FirstStop(parts)
    ensures forall l :: 0 <= l < k ==> PartVerdict(parts[l]) == Pass
  {
    if PartVerdict(parts[0]) != Pass {
      k := 0;
    } else {
      var j := FirstStopFound(parts[1..]);
      k := j + 1;
      assert forall l :: 1 <= l < k ==> parts[l] == parts[1..][l - 1];
    }
  }

  /** A payload is refused as too large exactly when some image item has more
      than 3,000,000 characters after its comma and no item before it stops
      the scan. */
  lemma FirstStopOversizedIff(parts: seq<Part>)
    ensures FirstStop(parts) == Oversized <==>
      exists k :: 0 <= k < |parts| && PartVerdict(parts[k]) == Oversized &&
        forall l :: 0 <= l < k ==> PartVerdict(parts[l]) == Pass
  {
    if FirstStop(parts) == Oversized {
      var k := FirstStopFound(parts);
    }
    if exists k :: 0 <= k < |parts| && PartVerdict(parts[k]) == Oversized &&
        forall l :: 0 <= l < k ==> PartVerdict(parts[l]) == Pass {
      var k :| 0 <= k < |parts| && PartVerdict(parts[k]) == Oversized &&
        forall l :: 0 <= l < k ==> PartVerdict(parts[l]) == Pass;
      FirstStopAt(parts, k);
    }
  }

  // ---------------------------------------------------------------------------
  // The request built by `describe_image_with_llm`
  // ---------------------------------------------------------------------------

  const BasePrompt := "Describe this image in detail:"
  const DataUriPrefix := "data:image/png;base64"

  /** The language-name table of the prompt hint. */
  const LanguageNames: map<string, string> := map[
    "de" := "German", "en" := "English", "fr" := "French", "es" := "Spanish",
    "it" := "Italian", "nl" := "Dutch", "pt" := "Portuguese",
    "ru" := "Russian", "zh" := "Chinese", "ja" := "Japanese"]

  /** `{...}.get(doc_lang, doc_lang)`: the English name of a known code, the
      code itself otherwise. */
  function LanguageName(code: string): (name: string)
    ensures code !in LanguageNames ==> name == code
    ensures code in LanguageNames ==> name == LanguageNames[code]
  {
    if code in LanguageNames then LanguageNames[code] else code
  }

  /** The UI language's `multilingual_prompt`, split at its `{}` placeholder. */
  datatype HintTemplate = HintTemplate(before: string, after: string)

  /** `template.format(name)`. */
  function FormatHint(t: HintTemplate, name: string): string
  {
    t.before + name + t.after
  }

  /** The prompt: the fixed request, plus a line naming the document language
      unless that language is "auto". */
  function PromptText(docLang: string, uiTemplate: HintTemplate): (p: string)
    ensures |p| >= |BasePrompt| && p[..|BasePrompt|] == BasePrompt
    ensures p == BasePrompt <==> docLang == "auto"
  {
    if docLang == "auto" then BasePrompt
    else BasePrompt + "\n" + FormatHint(uiTemplate, LanguageName(docLang))
  }

  /** With an explicit document language the prompt names that language, on
      the line after the fixed request. */
  lemma PromptNamesLanguage(docLang: string, uiTemplate: HintTemplate)
    requires docLang != "auto"
    ensures OccursAt(PromptText(docLang, uiTemplate), LanguageName(docLang),
                     |BasePrompt| + 1 + |uiTemplate.before|)
    ensures PromptText(docLang, uiTemplate)[|BasePrompt|] == '\n'
    ensures Contains(PromptText(docLang, uiTemplate), LanguageName(docLang))
  {
    var p := PromptText(docLang, uiTemplate);
    var i := |BasePrompt| + 1 + |uiTemplate.before|;
    assert p[i..i + |LanguageName(docLang)|] == LanguageName(docLang);
    assert OccursAt(p, LanguageName(docLang), i);
    ContainsIffOccurs(p, LanguageName(docLang));
  }

  /** `f"data:image/png;base64,{img_str}"`. */
  function DataUri(b64: string): string
  {
    DataUriPrefix + "," + b64
  }

  /** The one user message: the prompt text, then the image as a data URI. */
  function DescribeMessages(prompt: string, b64: string): seq<Message>
  {
    [Message("user", Items([Part("text", Some(prompt), None),
                            Part("image_url", None, Some(DataUri(b64)))]))]
  }

  /** For the message of one image, the guard refuses exactly the images whose
      base64 text is longer than 3,000,000 characters; 3,000,000 is sent. */
  lemma DescribeGuard(prompt: string, b64: string)
    requires ',' !in b64
    ensures PayloadVerdict(DescribeMessages(prompt, b64))
      == if |b64| > MaxImageChars then Oversized else Pass
  {
    var url := DataUri(b64);
    assert url == DataUriPrefix + [','] + b64;
    assert ',' !in DataUriPrefix by {
      assert forall k :: 0 <= k < |DataUriPrefix| ==> DataUriPrefix[k] != ',';
    }
    SplitAtSep(DataUriPrefix, ',', b64);
    SplitWithoutSep(b64, ',');
    assert Split(url, ',') == [DataUriPrefix, b64];
    assert DataField(url) == Some(b64);
    assert url == DataImage + url[|DataImage|..];
    ContainsPrefix(DataImage, url[|DataImage|..]);
    assert Contains(url, DataImage);
    var image := Part("image_url", None, Some(url));
    assert PartVerdict(image) == if |b64| > MaxImageChars then Oversized else Pass;
    var text := Part("text", Some(prompt), None);
    assert PartVerdict(text) == Pass;
    var ms := DescribeMessages(prompt, b64);
    assert ms[..0] == [];
    assert AllItems(ms) == [text, image];
    assert [text, image][1..] == [image];
    assert [image][1..] == [];
    assert FirstStop([image]) == PartVerdict(image);
    assert FirstStop([text, image]) == FirstStop([image]);
    assert ItemsOf(ms[0]) == [text, image];
  }

  /** `describe_image_with_llm` against the local client with its default
      settings: `posted` is the request sent to the endpoint, if any, and the
      description is the stripped reply; `serverReply` stands for the reply
      content the endpoint would return to the posted request. */
  method DescribeImage(docLang: string, uiTemplate: HintTemplate, model: string, b64: string,
                       serverReply: string)
    returns (posted: Option<Request>, r: Result<string, GuardError>)
    requires ',' !in b64
    ensures |b64| > MaxImageChars ==> posted == None && r == Success(TooLargeReply)
    ensures |b64| <= MaxImageChars ==>
      posted == Some(Request(model, DescribeMessages(PromptText(docLang, uiTemplate), b64),
                             0.7, -1, false))
    ensures |b64| <= MaxImageChars ==> r == Success(Strip(serverReply))
  {
    var prompt := PromptText(docLang, uiTemplate);
    var messages := DescribeMessages(prompt, b64);
    DescribeGuard(prompt, b64);
    var outcome := Create(model, messages, 0.7, -1, false);
    posted := None;
    match outcome
    case Answer(content) =>
      StripUnchanged(TooLargeReply);
      r := Success(Strip(content));
    case Post(request) =>
      posted := Some(request);
      r := Success(Strip(serverReply));
    case Fail(e) => r := Failure(e);
  }
}

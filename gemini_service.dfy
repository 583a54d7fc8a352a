/** Shaping of the image-edit request and reading of its response: the
    aspect-ratio choice for the high-quality model, the generation config,
    the prompt text, the scan of the response for the first inline image,
    and the byte-size estimate from the base64 text. The network call
    itself is outside the model: its response is an input. */
module GeminiService {
  import opened Types

  datatype AspectRatio = Ratio1x1 | Ratio3x4 | Ratio4x3 | Ratio9x16 | Ratio16x9

  /** The string the request carries for a ratio. */
  function AspectRatioName(a: AspectRatio): string
  {
    match a
    case Ratio1x1 => "1:1"
    case Ratio3x4 => "3:4"
    case Ratio4x3 => "4:3"
    case Ratio9x16 => "9:16"
    case Ratio16x9 => "16:9"
  }

  datatype RatioOption = RatioOption(name: AspectRatio, val: real)

  /** The supported ratios, in the order the reduce visits them. */
  const RatioOptions: seq<RatioOption> := [
    RatioOption(Ratio1x1, 1.0),
    RatioOption(Ratio3x4, 3.0 / 4.0),
    RatioOption(Ratio4x3, 4.0 / 3.0),
    RatioOption(Ratio9x16, 9.0 / 16.0),
    RatioOption(Ratio16x9, 16.0 / 9.0)
  ]

  function Distance(a: real, b: real): (d: real)
    ensures d >= 0.0 && (d == a - b || d == b - a)
  {
    if a >= b then a - b else b - a
  }

  /** Where the reduce's accumulator stands after the first n options: a
      later option takes over only when it is strictly closer, so the
      accumulator is a closest option and no earlier option is as close. */
  function ReduceIndex(opts: seq<RatioOption>, ratio: real, n: nat): (i: nat)
    requires 0 < n <= |opts|
    ensures i < n
    ensures forall k :: 0 <= k < n ==> Distance(opts[i].val, ratio) <= Distance(opts[k].val, ratio)
    ensures forall j :: 0 <= j < i ==> Distance(opts[j].val, ratio) > Distance(opts[i].val, ratio)
  {
    if n == 1 then 0
    else
      var prev := ReduceIndex(opts, ratio, n - 1);
      if Distance(opts[n - 1].val, ratio) < Distance(opts[prev].val, ratio) then n - 1 else prev
  }

  /** Position of an option's name in RatioOptions. */
  function OptionIndex(a: AspectRatio): (k: nat)
    ensures k < |RatioOptions| && RatioOptions[k].name == a
  {
    match a
    case Ratio1x1 => 0
    case Ratio3x4 => 1
    case Ratio4x3 => 2
    case Ratio9x16 => 3
    case Ratio16x9 => 4
  }

  /** With a zero height the ratio is Infinity (or NaN for 0/0): every
      distance is then Infinity or NaN, the strict comparison never
      succeeds, and the first option is kept. */
  function ClosestAspectRatio(width: nat, height: nat): (r: AspectRatio)
    ensures height == 0 ==> r == Ratio1x1
  {
    if height == 0 then Ratio1x1
    else RatioOptions[ReduceIndex(RatioOptions, width as real / height as real, |RatioOptions|)].name
  }

  /** The chosen ratio is a closest option to width / height, and every
      option listed before it is strictly farther: ties go to the earlier
      option. */
  lemma ClosestAspectRatioIsNearest(width: nat, height: nat)
    requires height > 0
    ensures var c := RatioOptions[OptionIndex(ClosestAspectRatio(width, height))];
      && (forall k :: 0 <= k < |RatioOptions| ==>
            Distance(c.val, width as real / height as real) <= Distance(RatioOptions[k].val, width as real / height as real))
      && (forall j :: 0 <= j < OptionIndex(ClosestAspectRatio(width, height)) ==>
            Distance(RatioOptions[j].val, width as real / height as real) > Distance(c.val, width as real / height as real))
  {
    var ratio := width as real / height as real;
    var i := ReduceIndex(RatioOptions, ratio, |RatioOptions|);
    assert ClosestAspectRatio(width, height) == RatioOptions[i].name;
    assert OptionIndex(RatioOptions[i].name) == i;
  }

  /** A square image gets "1:1". */
  lemma SquareIsOneToOne(side: nat)
    requires side > 0
    ensures ClosestAspectRatio(side, side) == Ratio1x1
  {
    var i := ReduceIndex(RatioOptions, 1.0, |RatioOptions|);
    assert Distance(RatioOptions[0].val, 1.0) == 0.0;
    assert i == 0;
  }

  /** 7:8 = 0.875 lies exactly halfway between 1:1 and 3:4; the earlier
      "1:1" wins. */
  lemma HalfwayTieGoesEarlier()
    ensures ClosestAspectRatio(7, 8) == Ratio1x1
  {
    var ratio := 7.0 / 8.0;
    assert ReduceIndex(RatioOptions, ratio, 1) == 0;
    assert ReduceIndex(RatioOptions, ratio, 2) == 0;
    assert ReduceIndex(RatioOptions, ratio, 3) == 0;
    assert ReduceIndex(RatioOptions, ratio, 4) == 0;
    assert ReduceIndex(RatioOptions, ratio, 5) == 0;
  }

  /** A 1920 x 1080 frame gets "16:9". */
  lemma FullHdIsSixteenToNine()
    ensures ClosestAspectRatio(1920, 1080) == Ratio16x9
  {
    var ratio := 1920.0 / 1080.0;
    assert ratio == 16.0 / 9.0;
    assert ReduceIndex(RatioOptions, ratio, 4) == 2;
    assert ReduceIndex(RatioOptions, ratio, 5) == 4;
  }

  /** Different ratios are sent as different strings. */
  lemma AspectRatioNameInjective(a: AspectRatio, b: AspectRatio)
    requires AspectRatioName(a) == AspectRatioName(b)
    ensures a == b
  {
  }

  /** The image part of the config, as the strings the request carries. */
  datatype ImageConfig = ImageConfig(aspectRatio: string, imageSize: string)

  /** The generation config; only its optional image part is ever set. */
  datatype GenerateConfig = GenerateConfig(imageConfig: Option<ImageConfig>)

  /** Starts from an empty config and adds the image part for the PRO
      model only. */
  method BuildConfig(model: GeminiModel, resolution: Resolution, width: nat, height: nat)
    returns (config: GenerateConfig)
    ensures model == Pro ==> config.imageConfig == Some(ImageConfig(AspectRatioName(ClosestAspectRatio(width, height)), ResolutionName(resolution)))
    ensures model == Flash ==> config.imageConfig == None
  {
    config := GenerateConfig(None);
    if model == Pro {
      config := config.(imageConfig := Some(ImageConfig(AspectRatioName(ClosestAspectRatio(width, height)), ResolutionName(resolution))));
    }
  }

  const PreservePrefix: string :=
    "Preserve the exact composition and alignment of the original image. Edit the image as follows: "

  /** The instruction sent with the image: the fixed preservation text,
      then the user's prompt unchanged. */
  function PromptText(prompt: string): (t: string)
    ensures |t| == |PreservePrefix| + |prompt|
    ensures t[..|PreservePrefix|] == PreservePrefix && t[|PreservePrefix|..] == prompt
  {
    PreservePrefix + prompt
  }

  /** Different prompts are never sent as the same text. */
  lemma PromptTextInjective(a: string, b: string)
    requires PromptText(a) == PromptText(b)
    ensures a == b
  {
    assert a == PromptText(a)[|PreservePrefix|..];
  }

  datatype InlineData = InlineData(data: string, mimeType: string)

  datatype Part = Part(inlineData: Option<InlineData>, text: Option<string>)

  datatype Request = Request(model: string, parts: seq<Part>, config: GenerateConfig)

  datatype Content = Content(parts: Option<seq<Part>>)

  datatype Candidate = Candidate(content: Option<Content>)

  datatype Response = Response(candidates: Option<seq<Candidate>>)

  const NoImageError: string := "No image was generated in the response."

  /** Part k is the first part that carries inline data. */
  predicate FirstInline(parts: seq<Part>, k: nat)
  {
    k < |parts| && parts[k].inlineData.Some? &&
    forall j :: 0 <= j < k ==> parts[j].inlineData.None?
  }

  /** `response.candidates?.[0]?.content?.parts`, with an absent link read as
      no parts at all. */
  function ResponseParts(resp: Response): (parts: seq<Part>)
    ensures parts != [] ==>
      && resp.candidates.Some? && |resp.candidates.value| > 0
      && resp.candidates.value[0].content.Some?
      && resp.candidates.value[0].content.value.parts == Some(parts)
  {
    if resp.candidates.Some? && |resp.candidates.value| > 0
       && resp.candidates.value[0].content.Some?
       && resp.candidates.value[0].content.value.parts.Some?
    then resp.candidates.value[0].content.value.parts.value
    else []
  }

  /** Scans the first candidate's parts and stops at the first one with
      inline data. An empty data string is as falsy as a missing one, so
      it fails as well. */
  method ExtractImageData(resp: Response) returns (r: Result<string, string>)
    ensures r.Ok? ==> exists k: nat :: FirstInline(ResponseParts(resp), k)
                       && ResponseParts(resp)[k].inlineData.value.data == r.value && r.value != ""
    ensures r.Err? ==> r.error == NoImageError
    ensures r.Err? ==> forall k: nat :: FirstInline(ResponseParts(resp), k) ==> ResponseParts(resp)[k].inlineData.value.data == ""
  {
    var parts: seq<Part> := [];
    if resp.candidates.Some? && |resp.candidates.value| > 0
       && resp.candidates.value[0].content.Some?
       && resp.candidates.value[0].content.value.parts.Some?
    {
      parts := resp.candidates.value[0].content.value.parts.value;
    }
    assert parts == ResponseParts(resp);
    var edited: Option<string> := None;
    ghost var at: nat := 0;
    for i := 0 to |parts|
      invariant edited.None?
      invariant forall j :: 0 <= j < i ==> parts[j].inlineData.None?
    {
      if parts[i].inlineData.Some? {
        edited := Some(parts[i].inlineData.value.data);
        at := i;
        break;
      }
    }
    assert edited.Some? ==> FirstInline(parts, at) && edited.value == parts[at].inlineData.value.data;
    assert edited.None? ==> forall k: nat :: !FirstInline(parts, k);
    if edited.None? || edited.value == "" {
      r := Err(NoImageError);
      assert forall k: nat :: FirstInline(parts, k) ==> k == at;
    } else {
      r := Ok(edited.value);
    }
  }

  /** `Math.round(length * 3 / 4)`: the nearest integer to three quarters of
      the base64 length, a half rounded up. */
  function EstimatedSize(base64Length: nat): (r: nat)
    ensures 3 * base64Length < 4 * r + 2 && 4 * r <= 3 * base64Length + 2
  {
    (3 * base64Length + 2) / 4
  }

  /** Length of the padded base64 text of m bytes (section 4 of RFC 4648:
      four characters per started group of three bytes). */
  function Base64Length(m: nat): nat
  {
    4 * ((m + 2) / 3)
  }

  /** On padded base64 the estimate never falls short of the true byte
      count and overshoots it by at most the two padding bytes. */
  lemma EstimateOfPaddedBase64(m: nat)
    ensures m <= EstimatedSize(Base64Length(m)) <= m + 2
  {
    var q := (m + 2) / 3;
    assert 3 * q <= m + 2 < 3 * q + 3;
    assert EstimatedSize(4 * q) == 3 * q;
  }

  datatype EditResult = EditResult(imageUrl: string, width: nat, height: nat, size: nat)

  const DataUrlPrefix: string := "data:image/png;base64,"

  /** One edit: the config and request built for the model, then the
      reply read. The reply, the uploaded file as base64, its type and its
      decoded dimensions, and the dimensions of the returned image once
      decoded are all supplied from outside. */
  method ProcessImageEdit(
    fileBase64: string, mimeType: string, fileWidth: nat, fileHeight: nat,
    prompt: string, model: GeminiModel, resolution: Resolution,
    response: Response, editedWidth: nat, editedHeight: nat)
    returns (request: Request, r: Result<EditResult, string>)
    ensures request.model == ModelName(model)
    ensures request.parts == [Part(Some(InlineData(fileBase64, mimeType)), None), Part(None, Some(PromptText(prompt)))]
    ensures model == Pro ==> request.config.imageConfig == Some(ImageConfig(AspectRatioName(ClosestAspectRatio(fileWidth, fileHeight)), ResolutionName(resolution)))
    ensures model == Flash ==> request.config.imageConfig == None
    ensures r.Err? ==> r.error == NoImageError
    ensures r.Ok? ==> exists k: nat :: FirstInline(ResponseParts(response), k)
                       && ResponseParts(response)[k].inlineData.value.data != ""
                       && r.value.imageUrl == DataUrlPrefix + ResponseParts(response)[k].inlineData.value.data
                       && r.value.size == EstimatedSize(|ResponseParts(response)[k].inlineData.value.data|)
    ensures r.Ok? ==> r.value.width == editedWidth && r.value.height == editedHeight
    ensures r.Err? ==> forall k: nat :: FirstInline(ResponseParts(response), k)
                         ==> ResponseParts(response)[k].inlineData.value.data == ""
  {
    var config := BuildConfig(model, resolution, fileWidth, fileHeight);
    request := Request(ModelName(model),
      [Part(Some(InlineData(fileBase64, mimeType)), None), Part(None, Some(PromptText(prompt)))],
      config);
    var data := ExtractImageData(response);
    if data.Err? {
      r := Err(data.error);
    } else {
      var edited := data.value;
      r := Ok(EditResult(DataUrlPrefix + edited, editedWidth, editedHeight, EstimatedSize(|edited|)));
    }
  }
}

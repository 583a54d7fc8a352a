/** The studio's top-level state: the image list, the saved prompt presets,
    the preview selection with its diff and refine flags, and the handlers
    that change them. The list updates are pure functions; the handlers
    are methods of `AppState`, one per event the page reacts to. */
module App {
  import opened Types
  import opened NumberText
  import opened Helpers
  import GeminiService

  // ---------------------------------------------------------------------
  // Preview navigation

  /** The index ArrowLeft or the previous button moves to: one back, from
      the first to the last. */
  function PrevIndex(i: nat, len: nat): (r: nat)
    requires i < len
    ensures r < len && r == (i + len - 1) % len
  {
    if i > 0 then i - 1 else len - 1
  }

  /** The index ArrowRight or the next button moves to: one on, from the
      last to the first. */
  function NextIndex(i: nat, len: nat): (r: nat)
    requires i < len
    ensures r < len && r == (i + 1) % len
  {
    if i < len - 1 then i + 1 else 0
  }

  lemma PrevNextInverse(i: nat, len: nat)
    requires i < len
    ensures PrevIndex(NextIndex(i, len), len) == i
    ensures NextIndex(PrevIndex(i, len), len) == i
  {
  }

  /** The index reached by k presses of ArrowRight. */
  function NextSteps(i: nat, len: nat, k: nat): (r: nat)
    requires i < len
    ensures r < len
  {
    if k == 0 then i else NextIndex(NextSteps(i, len, k - 1), len)
  }

  lemma ModSucc(a: nat, n: nat)
    requires n > 0
    ensures (a % n + 1) % n == (a + 1) % n
  {
    var q, r := a / n, a % n;
    assert a == q * n + r && r < n;
    if r + 1 < n {
      ModUnique(a + 1, n, q, r + 1);
      ModUnique(r + 1, n, 0, r + 1);
    } else {
      assert (q + 1) * n == q * n + n;
      ModUnique(a + 1, n, q + 1, 0);
      ModUnique(n, n, 1, 0);
    }
  }

  /** k presses of ArrowRight advance the index by k around the list. */
  lemma {:induction false} NextStepsWrap(i: nat, len: nat, k: nat)
    requires i < len
    ensures NextSteps(i, len, k) == (i + k) % len
  {
    if k > 0 {
      NextStepsWrap(i, len, k - 1);
      ModSucc(i + k - 1, len);
    }
  }

  /** As many presses as there are images come back to the same image. */
  lemma FullCycleReturns(i: nat, len: nat)
    requires i < len
    ensures NextSteps(i, len, len) == i
  {
    NextStepsWrap(i, len, len);
    ModUnique(i + len, len, 1, i);
  }

  datatype Key = ArrowLeft | ArrowRight | Escape | OtherKey

  // ---------------------------------------------------------------------
  // Presets

  predicate Distinct(xs: seq<string>)
  {
    forall i, j :: 0 <= i < j < |xs| ==> xs[i] != xs[j]
  }

  /** The preset list after saving `prompt`: unchanged when the prompt is
      empty or already saved, otherwise the prompt in front of the old
      list. */
  function WithPreset(presets: seq<string>, prompt: string): (r: seq<string>)
    ensures prompt == "" || prompt in presets ==> r == presets
    ensures prompt != "" && prompt !in presets ==> |r| == |presets| + 1 && r[0] == prompt && r[1..] == presets
  {
    if prompt == "" || prompt in presets then presets else [prompt] + presets
  }

  /** Saving never introduces a duplicate. */
  lemma WithPresetKeepsDistinct(presets: seq<string>, prompt: string)
    requires Distinct(presets)
    ensures Distinct(WithPreset(presets, prompt))
  {
    var r := WithPreset(presets, prompt);
    if prompt != "" && prompt !in presets {
      forall i, j | 0 <= i < j < |r| ensures r[i] != r[j] {
        assert r[j] == presets[j - 1];
        if i > 0 {
          assert r[i] == presets[i - 1];
        }
      }
    }
  }

  /** After saving, a non-empty prompt is among the presets, and the saved
      set is exactly the old one plus the prompt. */
  lemma WithPresetContents(presets: seq<string>, prompt: string)
    ensures prompt != "" ==> prompt in WithPreset(presets, prompt)
    ensures forall p :: p in WithPreset(presets, prompt) <==> p in presets || (p == prompt && prompt != "")
  {
  }

  /** Saving the same prompt twice is the same as saving it once. */
  lemma WithPresetIdempotent(presets: seq<string>, prompt: string)
    ensures WithPreset(WithPreset(presets, prompt), prompt) == WithPreset(presets, prompt)
  {
  }

  // ---------------------------------------------------------------------
  // Image list updates

  /** The three status updates an edit applies to its item. */
  datatype StatusUpdate =
    | MarkProcessing
    | MarkDone(editedUrl: string, editedMetadata: ImageMetadata)
    | MarkError(message: string)

  /** One item after an update: the status changes, a success records the
      edited image and its metadata, a failure records the message; the id
      and the original image are never touched, and what the update does
      not name is kept (a success leaves an earlier error message, a
      failure an earlier edit). */
  function Apply(item: ImageItem, u: StatusUpdate): (r: ImageItem)
    ensures r.id == item.id && r.originalUrl == item.originalUrl && r.originalMetadata == item.originalMetadata
    ensures u.MarkProcessing? ==> r == item.(status := Processing)
    ensures u.MarkDone? ==>
      && r.status == Done && r.editedUrl == Some(u.editedUrl)
      && r.editedMetadata == Some(u.editedMetadata) && r.errorMessage == item.errorMessage
    ensures u.MarkError? ==>
      && r.status == Failed && r.errorMessage == Some(u.message)
      && r.editedUrl == item.editedUrl && r.editedMetadata == item.editedMetadata
  {
    match u
    case MarkProcessing => item.(status := Processing)
    case MarkDone(url, meta) => item.(status := Done, editedUrl := Some(url), editedMetadata := Some(meta))
    case MarkError(msg) => item.(status := Failed, errorMessage := Some(msg))
  }

  /** A later outcome overwrites the interim "processing" mark entirely. */
  lemma ProcessingIsOverwritten(item: ImageItem, u: StatusUpdate)
    requires !u.MarkProcessing?
    ensures Apply(Apply(item, MarkProcessing), u) == Apply(item, u)
  {
  }

  /** The list with `u` applied to the items whose id is `id`. */
  function UpdateById(items: seq<ImageItem>, id: string, u: StatusUpdate): (r: seq<ImageItem>)
    ensures |r| == |items|
  {
    seq(|items|, k requires 0 <= k < |items| => if items[k].id == id then Apply(items[k], u) else items[k])
  }

  /** Two lists name the same images in the same order. */
  predicate SameIds(a: seq<ImageItem>, b: seq<ImageItem>)
  {
    |a| == |b| && forall k :: 0 <= k < |a| ==> a[k].id == b[k].id
  }

  /** An update gives `u` to every item with the id and leaves every other
      item as it was; so it never changes which images are listed, nor
      their order. */
  lemma UpdateByIdEffect(items: seq<ImageItem>, id: string, u: StatusUpdate)
    ensures forall k :: 0 <= k < |items| && items[k].id != id ==> UpdateById(items, id, u)[k] == items[k]
    ensures forall k :: 0 <= k < |items| && items[k].id == id ==> UpdateById(items, id, u)[k] == Apply(items[k], u)
    ensures SameIds(UpdateById(items, id, u), items)
  {
  }

  /** An update for an id not in the list changes nothing. */
  lemma UpdateUnknownId(items: seq<ImageItem>, id: string, u: StatusUpdate)
    requires forall k :: 0 <= k < |items| ==> items[k].id != id
    ensures UpdateById(items, id, u) == items
  {
    UpdateByIdEffect(items, id, u);
  }

  /** Marking an item processing and then recording an outcome is the same
      as recording the outcome directly. */
  lemma UpdateProcessingIsOverwritten(items: seq<ImageItem>, id: string, u: StatusUpdate)
    requires !u.MarkProcessing?
    ensures UpdateById(UpdateById(items, id, MarkProcessing), id, u) == UpdateById(items, id, u)
  {
    var a := UpdateById(UpdateById(items, id, MarkProcessing), id, u);
    var b := UpdateById(items, id, u);
    UpdateByIdEffect(items, id, MarkProcessing);
    UpdateByIdEffect(UpdateById(items, id, MarkProcessing), id, u);
    UpdateByIdEffect(items, id, u);
    forall k | 0 <= k < |items| ensures a[k] == b[k] {
      if items[k].id == id {
        ProcessingIsOverwritten(items[k], u);
      }
    }
  }

  /** An error shows the thrown message, or "Processing failed" when it has
      none or an empty one; so the shown message is never empty. */
  function ErrorMessage(thrown: Option<string>): (r: string)
    ensures r != ""
    ensures thrown.Some? && thrown.value != "" ==> r == thrown.value
    ensures thrown.None? || thrown.value == "" ==> r == "Processing failed"
  {
    if thrown.Some? && thrown.value != "" then thrown.value else "Processing failed"
  }

  const EditedSuffix: string := " (edited)"
  const KbSuffix: string := " KB"

  /** The metadata recorded for a successful edit: the original's name with
      " (edited)" appended, the returned dimensions as "W x H" text and as
      numbers, and the returned size in kilobytes with exactly two
      decimals, rounded to nearest with halves up. */
  function EditedMetadata(original: ImageMetadata, result: GeminiService.EditResult): (m: ImageMetadata)
    ensures |m.name| == |original.name| + |EditedSuffix|
    ensures m.name[..|original.name|] == original.name && m.name[|original.name|..] == EditedSuffix
    ensures m.width == result.width && m.height == result.height
  {
    ImageMetadata(
      original.name + EditedSuffix,
      FixedTwo(RoundHalfUp(100 * result.size, 1024)) + KbSuffix,
      DimensionsText(result.width, result.height),
      result.width,
      result.height)
  }

  /** The recorded texts read back as what they show: the dimension text
      as the returned width and height, the size text as " KB" after a
      number with exactly two decimals that is the returned size in
      kilobytes rounded to the nearest hundredth. */
  lemma EditedMetadataReadsBack(original: ImageMetadata, result: GeminiService.EditResult)
    ensures var m := EditedMetadata(original, result);
      ParseDimensions(m.dimensions) == Some((result.width, result.height))
    ensures var m := EditedMetadata(original, result);
      |m.size| >= 7 && m.size[|m.size| - 3..] == KbSuffix && m.size[|m.size| - 6] == '.'
    ensures var m := EditedMetadata(original, result);
      var p := ParseHundredths(m.size[..|m.size| - 3]);
      p.Some? && 2048 * p.value <= 200 * result.size + 1024 < 2048 * (p.value + 1)
  {
    var m := EditedMetadata(original, result);
    var h := RoundHalfUp(100 * result.size, 1024);
    var kb := FixedTwo(h);
    FixedTwoRoundTrip(h);
    DimensionsRoundTrip(result.width, result.height);
    assert m.size == kb + KbSuffix;
    assert m.size[..|m.size| - 3] == kb;
  }

  /** What one call of the editing service came to: the edited image, or
      an error with its message, if it had one. */
  datatype Outcome = Edited(result: GeminiService.EditResult) | Threw(message: Option<string>)

  /** The final update an outcome gives the item `found`. */
  function OutcomeUpdate(found: ImageItem, outcome: Outcome): (u: StatusUpdate)
    ensures !u.MarkProcessing?
    ensures outcome.Edited? ==> u == MarkDone(outcome.result.imageUrl, EditedMetadata(found.originalMetadata, outcome.result))
    ensures outcome.Threw? ==> u == MarkError(ErrorMessage(outcome.message))
  {
    match outcome
    case Edited(res) => MarkDone(res.imageUrl, EditedMetadata(found.originalMetadata, res))
    case Threw(msg) => MarkError(ErrorMessage(msg))
  }

  /** The item as one edit leaves it. */
  function Settle(item: ImageItem, outcome: Outcome): (r: ImageItem)
    ensures r.id == item.id && r.originalMetadata == item.originalMetadata
    ensures outcome.Edited? <==> r.status == Done
    ensures outcome.Threw? <==> r.status == Failed
  {
    Apply(item, OutcomeUpdate(item, outcome))
  }

  /** The position of the first item at or after `start` with id `id`. */
  function FindFrom(items: seq<ImageItem>, id: string, start: nat): (r: Option<nat>)
    requires start <= |items|
    ensures r.Some? ==> start <= r.value < |items| && items[r.value].id == id
    decreases |items| - start
  {
    if start == |items| then None
    else if items[start].id == id then Some(start)
    else FindFrom(items, id, start + 1)
  }

  /** The position of the first item with id `id`. */
  function Find(items: seq<ImageItem>, id: string): (r: Option<nat>)
    ensures r.Some? ==> r.value < |items| && items[r.value].id == id
  {
    FindFrom(items, id, 0)
  }

  lemma {:induction false} FindFromFirst(items: seq<ImageItem>, id: string, start: nat)
    requires start <= |items|
    ensures FindFrom(items, id, start).Some? ==>
      forall j :: start <= j < FindFrom(items, id, start).value ==> items[j].id != id
    ensures FindFrom(items, id, start).None? <==> forall j :: start <= j < |items| ==> items[j].id != id
    decreases |items| - start
  {
    if start < |items| && items[start].id != id {
      FindFromFirst(items, id, start + 1);
    }
  }

  /** Find reports the first position carrying the id, and none exactly
      when no item carries it. */
  lemma FindFirst(items: seq<ImageItem>, id: string)
    ensures Find(items, id).Some? ==> forall j :: 0 <= j < Find(items, id).value ==> items[j].id != id
    ensures Find(items, id).None? <==> forall j :: 0 <= j < |items| ==> items[j].id != id
  {
    FindFromFirst(items, id, 0);
  }

  predicate DistinctIds(items: seq<ImageItem>)
  {
    forall i, j :: 0 <= i < j < |items| ==> items[i].id != items[j].id
  }

  /** With distinct ids, Find locates the item that carries the id. */
  lemma FindDistinct(items: seq<ImageItem>, k: nat)
    requires DistinctIds(items) && k < |items|
    ensures Find(items, items[k].id) == Some(k)
  {
    FindFirst(items, items[k].id);
  }

  /** One edit of `id` as processSingleImage performs it on `items`, the
      item being looked up in `view`, the list as it was when the handler
      was created: nothing when the id is not there, otherwise the item
      receives the outcome's update (the interim "processing" mark it
      carries while the service works is overwritten by it, as
      `UpdateProcessingIsOverwritten` shows). */
  function SingleEdit(items: seq<ImageItem>, view: seq<ImageItem>, id: string, outcome: Outcome): (r: seq<ImageItem>)
    ensures |r| == |items|
    ensures Find(view, id).None? ==> r == items
  {
    match Find(view, id)
    case None => items
    case Some(k) => UpdateById(items, id, OutcomeUpdate(view[k], outcome))
  }

  lemma SingleEditKeepsIds(items: seq<ImageItem>, view: seq<ImageItem>, id: string, outcome: Outcome)
    ensures SameIds(SingleEdit(items, view, id, outcome), items)
  {
    var found := Find(view, id);
    if found.Some? {
      UpdateByIdEffect(items, id, OutcomeUpdate(view[found.value], outcome));
    }
  }

  /** When the list carries the same ids as the view, and those are
      distinct, an edit changes exactly the item at the id's position and
      gives it the outcome's update. */
  lemma SingleEditAt(items: seq<ImageItem>, view: seq<ImageItem>, k: nat, outcome: Outcome)
    requires DistinctIds(view) && k < |view| && SameIds(items, view)
    ensures SingleEdit(items, view, view[k].id, outcome) == items[k := Apply(items[k], OutcomeUpdate(view[k], outcome))]
  {
    FindDistinct(view, k);
    var a := SingleEdit(items, view, view[k].id, outcome);
    var b := items[k := Apply(items[k], OutcomeUpdate(view[k], outcome))];
    UpdateByIdEffect(items, view[k].id, OutcomeUpdate(view[k], outcome));
    assert |a| == |b|;
  }

  /** The list after the first n edits of a "process all" run over the
      list `view`, with outcomes in list order. */
  function RunAll(view: seq<ImageItem>, outcomes: seq<Outcome>, n: nat): (r: seq<ImageItem>)
    requires n <= |view| && |outcomes| == |view|
    ensures |r| == |view|
  {
    if n == 0 then view else SingleEdit(RunAll(view, outcomes, n - 1), view, view[n - 1].id, outcomes[n - 1])
  }

  /** One iteration of a run: the k-th image is found in the handler's
      list, and the run and the success flag grow by its edit. */
  lemma RunStep(view: seq<ImageItem>, outcomes: seq<Outcome>, k: nat)
    requires k < |view| && |outcomes| == |view|
    ensures Find(view, view[k].id).Some?
    ensures RunAll(view, outcomes, k + 1) == SingleEdit(RunAll(view, outcomes, k), view, view[k].id, outcomes[k])
    ensures AnyEdited(outcomes, k + 1) == (outcomes[k].Edited? || AnyEdited(outcomes, k))
  {
    FindFirst(view, view[k].id);
  }

  /** A run never changes which images are listed, nor their order. */
  lemma {:induction false} RunAllKeepsIds(view: seq<ImageItem>, outcomes: seq<Outcome>, n: nat)
    requires n <= |view| && |outcomes| == |view|
    ensures SameIds(RunAll(view, outcomes, n), view)
  {
    if n > 0 {
      var prev := RunAll(view, outcomes, n - 1);
      RunAllKeepsIds(view, outcomes, n - 1);
      SingleEditKeepsIds(prev, view, view[n - 1].id, outcomes[n - 1]);
      assert RunAll(view, outcomes, n) == SingleEdit(prev, view, view[n - 1].id, outcomes[n - 1]);
    }
  }

  /** After n edits of a run over a list with distinct ids, each of the
      first n items is settled by its own outcome and the others are as
      they were. */
  lemma {:induction false} RunAllSettles(view: seq<ImageItem>, outcomes: seq<Outcome>, n: nat, k: nat)
    requires DistinctIds(view) && |outcomes| == |view| && n <= |view| && k < |view|
    ensures RunAll(view, outcomes, n)[k] == if k < n then Settle(view[k], outcomes[k]) else view[k]
  {
    if n > 0 {
      var prev := RunAll(view, outcomes, n - 1);
      RunAllSettles(view, outcomes, n - 1, k);
      RunAllKeepsIds(view, outcomes, n - 1);
      SingleEditAt(prev, view, n - 1, outcomes[n - 1]);
      var next := prev[n - 1 := Apply(prev[n - 1], OutcomeUpdate(view[n - 1], outcomes[n - 1]))];
      assert RunAll(view, outcomes, n) == next;
      if k == n - 1 {
        assert prev[k] == view[k];
        assert next[k] == Settle(view[k], outcomes[k]);
      } else {
        assert next[k] == prev[k];
      }
    }
  }

  /** A whole run leaves every image either done or failed. */
  lemma RunAllFinishesEveryImage(view: seq<ImageItem>, outcomes: seq<Outcome>, k: nat)
    requires DistinctIds(view) && |outcomes| == |view| && k < |view|
    ensures RunAll(view, outcomes, |view|)[k].status in {Done, Failed}
  {
    RunAllSettles(view, outcomes, |view|, k);
  }

  /** Whether one of the first n outcomes is a success. */
  function AnyEdited(outcomes: seq<Outcome>, n: nat): bool
    requires n <= |outcomes|
  {
    n > 0 && (outcomes[n - 1].Edited? || AnyEdited(outcomes, n - 1))
  }

  lemma {:induction false} AnyEditedExists(outcomes: seq<Outcome>, n: nat)
    requires n <= |outcomes|
    ensures AnyEdited(outcomes, n) <==> exists k :: 0 <= k < n && outcomes[k].Edited?
  {
    if n > 0 {
      AnyEditedExists(outcomes, n - 1);
    }
  }

  // ---------------------------------------------------------------------
  // Uploads

  /** What an uploaded file contributes before it is edited: its generated
      id, its object URL and its metadata. */
  datatype NewFile = NewFile(id: string, url: string, name: string, size: nat, width: nat, height: nat)

  /** A freshly uploaded list entry: idle, with no edit and no error. */
  function NewItem(f: NewFile): (r: ImageItem)
    ensures r.id == f.id && r.originalUrl == f.url && r.originalMetadata == MetadataOf(f.name, f.size, f.width, f.height)
    ensures r.originalMetadata.size == FormatFileSize(f.size)
    ensures ParseDimensions(r.originalMetadata.dimensions) == Some((f.width, f.height))
    ensures r.status == Idle && r.editedUrl.None? && r.editedMetadata.None? && r.errorMessage.None?
  {
    ImageItem(f.id, f.url, MetadataOf(f.name, f.size, f.width, f.height), None, None, Idle, None)
  }

  /** The arguments a handler passes to the editing service: the image,
      by its id, then the prompt, the model and the resolution. */
  datatype EditCall = EditCall(imageId: string, prompt: string, model: GeminiModel, resolution: Resolution)

  // ---------------------------------------------------------------------
  // Page state and handlers

  class AppState {
    var images: seq<ImageItem>
    var presets: seq<string>
    var prompt: string
    var model: GeminiModel
    var resolution: Resolution
    var selected: Option<nat>
    var showDiff: bool
    var isRefining: bool
    var isProcessingAll: bool

    /** The selection, when there is one, is an index into the list. */
    predicate Valid()
      reads this
    {
      selected.Some? ==> selected.value < |images|
    }

    twostate predicate ContentUnchanged()
      reads this
    {
      && images == old(images) && presets == old(presets) && prompt == old(prompt)
      && model == old(model) && resolution == old(resolution) && isProcessingAll == old(isProcessingAll)
    }

    twostate predicate PreviewUnchanged()
      reads this
    {
      selected == old(selected) && showDiff == old(showDiff) && isRefining == old(isRefining)
    }

    constructor ()
      ensures Valid()
      ensures images == [] && presets == [] && prompt == ""
      ensures model == Flash && resolution == Res1K
      ensures selected.None? && !showDiff && !isRefining && !isProcessingAll
    {
      images := [];
      presets := [];
      prompt := "";
      model := Flash;
      resolution := Res1K;
      selected := None;
      showDiff := false;
      isRefining := false;
      isProcessingAll := false;
    }

    /** Every navigation sets the selection and closes the refine panel and
        the diff view. */
    method Navigate(to: Option<nat>)
      requires to.Some? ==> to.value < |images|
      modifies this
      ensures Valid()
      ensures selected == to && !showDiff && !isRefining
      ensures ContentUnchanged()
    {
      selected := to;
      isRefining := false;
      showDiff := false;
    }

    /** The window's keydown handler. */
    method KeyDown(key: Key)
      requires Valid()
      modifies this
      ensures Valid() && ContentUnchanged()
      ensures old(selected).None? || key == OtherKey ==> PreviewUnchanged()
      ensures old(selected).Some? && key != OtherKey ==> !showDiff && !isRefining
      ensures old(selected).Some? && key == ArrowLeft ==> selected == Some(PrevIndex(old(selected).value, |images|))
      ensures old(selected).Some? && key == ArrowRight ==> selected == Some(NextIndex(old(selected).value, |images|))
      ensures old(selected).Some? && key == Escape ==> selected.None?
    {
      if selected.None? {
        return;
      }
      var i := selected.value;
      match key {
        case ArrowLeft => Navigate(Some(PrevIndex(i, |images|)));
        case ArrowRight => Navigate(Some(NextIndex(i, |images|)));
        case Escape => Navigate(None);
        case OtherKey =>
      }
    }

    /** The preview's previous-image button. */
    method PrevButton()
      requires Valid() && selected.Some?
      modifies this
      ensures Valid() && ContentUnchanged()
      ensures selected == Some(PrevIndex(old(selected).value, |images|)) && !showDiff && !isRefining
    {
      Navigate(Some(PrevIndex(selected.value, |images|)));
    }

    /** The preview's next-image button. */
    method NextButton()
      requires Valid() && selected.Some?
      modifies this
      ensures Valid() && ContentUnchanged()
      ensures selected == Some(NextIndex(old(selected).value, |images|)) && !showDiff && !isRefining
    {
      Navigate(Some(NextIndex(selected.value, |images|)));
    }

    /** The preview's close button. */
    method Close()
      modifies this
      ensures Valid() && ContentUnchanged()
      ensures selected.None? && !showDiff && !isRefining
    {
      Navigate(None);
    }

    /** A thumbnail of the preview's filmstrip. */
    method FilmstripSelect(idx: nat)
      requires idx < |images|
      modifies this
      ensures Valid() && ContentUnchanged()
      ensures selected == Some(idx) && !showDiff && !isRefining
    {
      Navigate(Some(idx));
    }

    /** A card of the main grid: it selects the image and leaves the flags
        as they are. */
    method GridSelect(idx: nat)
      requires idx < |images|
      modifies this
      ensures Valid() && ContentUnchanged()
      ensures selected == Some(idx) && showDiff == old(showDiff) && isRefining == old(isRefining)
    {
      selected := Some(idx);
    }

    /** A click on the preview's viewport toggles the diff view, but only
        when the shown image has an edited version. */
    method ViewportClick()
      requires Valid() && selected.Some?
      modifies this
      ensures Valid() && ContentUnchanged()
      ensures selected == old(selected) && isRefining == old(isRefining)
      ensures var e := images[selected.value].editedUrl;
        showDiff == (if e.Some? && e.value != "" then !old(showDiff) else old(showDiff))
    {
      var e := images[selected.value].editedUrl;
      if e.Some? && e.value != "" {
        showDiff := !showDiff;
      }
    }

    /** The Refine button in the preview header. */
    method ToggleRefine()
      modifies this
      ensures ContentUnchanged()
      ensures selected == old(selected) && showDiff == old(showDiff) && isRefining == !old(isRefining)
    {
      isRefining := !isRefining;
    }

    /** The close button of the refine panel. */
    method CloseRefine()
      modifies this
      ensures ContentUnchanged()
      ensures selected == old(selected) && showDiff == old(showDiff) && !isRefining
    {
      isRefining := false;
    }

    method EditPrompt(text: string)
      modifies this
      ensures prompt == text && PreviewUnchanged()
      ensures images == old(images) && presets == old(presets) && model == old(model)
        && resolution == old(resolution) && isProcessingAll == old(isProcessingAll)
    {
      prompt := text;
    }

    method SelectModel(m: GeminiModel)
      modifies this
      ensures model == m && PreviewUnchanged()
      ensures images == old(images) && presets == old(presets) && prompt == old(prompt)
        && resolution == old(resolution) && isProcessingAll == old(isProcessingAll)
    {
      model := m;
    }

    method SelectResolution(r: Resolution)
      modifies this
      ensures resolution == r && PreviewUnchanged()
      ensures images == old(images) && presets == old(presets) && prompt == old(prompt)
        && model == old(model) && isProcessingAll == old(isProcessingAll)
    {
      resolution := r;
    }

    /** The save button next to the prompt. */
    method SavePreset()
      modifies this
      ensures presets == WithPreset(old(presets), prompt) && PreviewUnchanged()
      ensures images == old(images) && prompt == old(prompt) && model == old(model)
        && resolution == old(resolution) && isProcessingAll == old(isProcessingAll)
    {
      if prompt == "" || prompt in presets {
        return;
      }
      presets := [prompt] + presets;
    }

    /** The file input's change handler: the new images go after the
        existing ones; a missing file list changes nothing. */
    method Upload(files: Option<seq<NewFile>>)
      requires Valid()
      modifies this
      ensures Valid() && PreviewUnchanged()
      ensures files.None? ==> images == old(images)
      ensures files.Some? ==>
        && |images| == |old(images)| + |files.value|
        && images[..|old(images)|] == old(images)
        && forall k :: 0 <= k < |files.value| ==> images[|old(images)| + k] == NewItem(files.value[k])
      ensures presets == old(presets) && prompt == old(prompt) && model == old(model)
        && resolution == old(resolution) && isProcessingAll == old(isProcessingAll)
    {
      if files.None? {
        return;
      }
      var added := seq(|files.value|, k requires 0 <= k < |files.value| => NewItem(files.value[k]));
      images := images + added;
    }

    /** processSingleImage: looks the id up in `view`, the list the handler
        was created with, and if it is there calls the service with the
        given prompt and the selected model and resolution, marks the item
        processing and records the outcome. A success also closes the
        refine panel. */
    method ProcessSingleImage(view: seq<ImageItem>, imageId: string, customPrompt: string, outcome: Outcome)
      returns (sent: Option<EditCall>)
      requires Valid()
      modifies this
      ensures Valid()
      ensures images == SingleEdit(old(images), view, imageId, outcome)
      ensures sent == (if Find(view, imageId).Some? then Some(EditCall(imageId, customPrompt, model, resolution)) else None)
      ensures isRefining == (if Find(view, imageId).Some? && outcome.Edited? then false else old(isRefining))
      ensures selected == old(selected) && showDiff == old(showDiff)
      ensures presets == old(presets) && prompt == old(prompt) && model == old(model)
        && resolution == old(resolution) && isProcessingAll == old(isProcessingAll)
    {
      var found := Find(view, imageId);
      if found.None? {
        return None;
      }
      var img := view[found.value];
      sent := Some(EditCall(imageId, customPrompt, model, resolution));
      images := UpdateById(images, imageId, MarkProcessing);
      match outcome {
        case Edited(res) =>
          images := UpdateById(images, imageId, MarkDone(res.imageUrl, EditedMetadata(img.originalMetadata, res)));
          isRefining := false;
        case Threw(msg) =>
          images := UpdateById(images, imageId, MarkError(ErrorMessage(msg)));
      }
      UpdateProcessingIsOverwritten(old(images), imageId, OutcomeUpdate(img, outcome));
    }

    /** "Process All Images": with a non-empty prompt, edits every image of
        the list as it stood when the run began, one after another, with
        outcomes in list order; with an empty prompt it does nothing. */
    method RunPrompt(outcomes: seq<Outcome>) returns (sent: seq<EditCall>)
      requires Valid() && |outcomes| == |images|
      modifies this
      ensures Valid()
      ensures old(prompt) == "" ==> sent == [] && ContentUnchanged() && PreviewUnchanged()
      ensures old(prompt) != "" ==> images == RunAll(old(images), outcomes, |outcomes|) && !isProcessingAll
      ensures old(prompt) != "" ==>
        && |sent| == |outcomes|
        && forall k :: 0 <= k < |sent| ==> sent[k] == EditCall(old(images)[k].id, prompt, model, resolution)
      ensures old(prompt) != "" ==>
        isRefining == (if exists k :: 0 <= k < |outcomes| && outcomes[k].Edited? then false else old(isRefining))
      ensures selected == old(selected) && showDiff == old(showDiff)
      ensures presets == old(presets) && prompt == old(prompt) && model == old(model) && resolution == old(resolution)
    {
      sent := [];
      if prompt == "" {
        return;
      }
      isProcessingAll := true;
      var view := images;
      for k := 0 to |view|
        invariant Valid() && |images| == |view|
        invariant images == RunAll(view, outcomes, k)
        invariant |sent| == k && forall j :: 0 <= j < k ==> sent[j] == EditCall(view[j].id, prompt, model, resolution)
        invariant isRefining == (if AnyEdited(outcomes, k) then false else old(isRefining))
        invariant selected == old(selected) && showDiff == old(showDiff)
        invariant presets == old(presets) && prompt == old(prompt) && model == old(model) && resolution == old(resolution)
      {
        var call := ProcessSingleImage(view, view[k].id, prompt, outcomes[k]);
        RunStep(view, outcomes, k);
        sent := sent + [call.value];
      }
      AnyEditedExists(outcomes, |outcomes|);
      isProcessingAll := false;
    }
  }
}

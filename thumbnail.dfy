/** The control flow of Run (ImageFunctions/Thumbnail.cs lines 74-133): the
    branches it takes and the order of what it does, as a pure function from
    one invocation to its outcome and the list of effects it performs. The
    blob name and the extension are inputs (they come from the event's URL);
    the storage account and the image are described by what the function can
    observe of them. */
module Thumbnail {
  import opened Outcomes
  import opened Encoders
  import opened BlobNames
  import opened Dimensions

  /** The THUMBNAIL_WIDTH environment variable, as Convert.ToInt32(string)
      sees it: absent (null), a number, or text that is not a number. */
  datatype WidthSetting = Unset | Numeric(value: int) | NotNumeric

  /** Line 89: Convert.ToInt32 gives 0 for null, fails on text that is not a
      number and on numbers outside the 32-bit range. */
  function ConvertWidth(setting: WidthSetting): (r: Result<int>)
    ensures r.Ok? <==> setting.Unset? || (setting.Numeric? && IsInt32(setting.value))
    ensures r.Ok? ==> IsInt32(r.value)
    ensures setting.Unset? ==> r == Ok(0)
    ensures setting.Numeric? && r.Ok? ==> r.value == setting.value
  {
    match setting
    case Unset => Ok(0)
    case Numeric(n) => if IsInt32(n) then Ok(n) else Err(OverflowError)
    case NotNumeric => Err(FormatError)
  }

  /** What the input stream holds: an image of some size, or bytes that do
      not decode. */
  datatype Picture = Decodable(width: int, height: int) | Undecodable

  datatype BlobKey = BlobKey(container: string, name: string)

  /** What the function can observe of the storage account: whether the
      container can be created, which blobs exist already (an upload without
      overwrite fails on those), and whether an upload fails otherwise. */
  datatype Storage = Storage(containerFails: bool, existing: set<BlobKey>, uploadFails: bool)

  /** One invocation: the input stream (None when the binding gives null),
      the URL's extension, the blob name and the width setting. */
  datatype Invocation = Invocation(
    input: Option<Picture>,
    extension: string,
    blobName: string,
    width: WidthSetting)

  /** The actions of Run that are visible outside it, in the order
      performed. */
  datatype Effect =
    | CreateContainer(container: string)
    | LoadImage
    | Resize(width: int, height: int)
    | Encode(format: Format)
    | Upload(key: BlobKey)
    | LogNoEncoder
    | LogFailure(failure: Failure)

  /** Run returns normally, or rethrows what it caught. */
  datatype Outcome = Completed | Rethrown(failure: Failure)

  datatype RunResult = RunResult(outcome: Outcome, effects: seq<Effect>)

  /** The body of the try block once an encoder is known: the effects
      performed, and the exception that ended it, if one did. */
  datatype Attempt = Attempt(failure: Option<Failure>, effects: seq<Effect>)

  /** Lines 89-119, in order: width, code, thumbnail name, container, image
      load, size, resize and encode, upload. */
  function Process(inv: Invocation, picture: Picture, format: Format, storage: Storage): (a: Attempt)
  {
    match ConvertWidth(inv.width)
    case Err(f) => Attempt(Some(f), [])
    case Ok(target) =>
      match GetCode(inv.blobName)
      case Err(f) => Attempt(Some(f), [])
      case Ok(code) =>
        match GetFilename(inv.blobName)
        case Err(f) => Attempt(Some(f), [])
        case Ok(thumbName) =>
          if storage.containerFails then Attempt(Some(ContainerError), [])
          else
            var created := [CreateContainer(code)];
            match picture
            case Undecodable => Attempt(Some(DecodeError), created)
            case Decodable(w, h) =>
              var loaded := created + [LoadImage];
              match ThumbnailSize(w, h, target)
              case Err(f) => Attempt(Some(f), loaded)
              case Ok(size) =>
                var encoded := loaded + [Resize(size.width, size.height), Encode(format)];
                var key := BlobKey(code, thumbName);
                if key in storage.existing then Attempt(Some(UploadConflict), encoded)
                else if storage.uploadFails then Attempt(Some(UploadError), encoded)
                else Attempt(None, encoded + [Upload(key)])
  }

  /** Run: nothing for a null input, a log line for an unsupported
      extension, otherwise the try block, whose exception is logged and
      rethrown. */
  function Run(inv: Invocation, storage: Storage): (r: RunResult)
  {
    match inv.input
    case None => RunResult(Completed, [])
    case Some(picture) =>
      match GetEncoder(inv.extension)
      case None => RunResult(Completed, [LogNoEncoder])
      case Some(format) =>
        var attempt := Process(inv, picture, format, storage);
        match attempt.failure
        case None => RunResult(Completed, attempt.effects)
        case Some(f) => RunResult(Rethrown(f), attempt.effects + [LogFailure(f)])
  }

  /** Everything the try block needs for an upload, with the values it
      computes. */
  predicate UploadsAs(inv: Invocation, storage: Storage, effects: seq<Effect>)
  {
    && inv.input.Some? && inv.input.value.Decodable?
    && GetEncoder(inv.extension).Some?
    && ConvertWidth(inv.width).Ok?
    && GetCode(inv.blobName).Ok? && GetFilename(inv.blobName).Ok?
    && !storage.containerFails && !storage.uploadFails
    && var target := ConvertWidth(inv.width).value;
       var code := GetCode(inv.blobName).value;
       var key := BlobKey(code, GetFilename(inv.blobName).value);
       var size := ThumbnailSize(inv.input.value.width, inv.input.value.height, target);
       && size.Ok?
       && key !in storage.existing
       && effects == [CreateContainer(code), LoadImage,
                      Resize(target, size.value.height),
                      Encode(GetEncoder(inv.extension).value),
                      Upload(key)]
  }

  /** A null input stream: no effect and no error. */
  lemma NullInputDoesNothing(inv: Invocation, storage: Storage)
    requires inv.input.None?
    ensures Run(inv, storage) == RunResult(Completed, [])
  {
  }

  /** An unsupported extension: only the log line, no upload and no error. */
  lemma UnsupportedExtensionOnlyLogs(inv: Invocation, storage: Storage)
    requires inv.input.Some?
    requires GetEncoder(inv.extension).None?
    ensures Run(inv, storage) == RunResult(Completed, [LogNoEncoder])
  {
  }

  /** Effects that happen in the try block come from Process, which is
      either finished with an upload or cut short by an exception. */
  lemma ProcessShape(inv: Invocation, picture: Picture, format: Format, storage: Storage)
    ensures var a := Process(inv, picture, format, storage);
            && (forall i :: 0 <= i < |a.effects| ==> !a.effects[i].LogFailure? && !a.effects[i].LogNoEncoder?)
            && (a.failure.None? ==> |a.effects| == 5 && a.effects[4].Upload?)
            && (forall i :: 0 <= i < |a.effects| ==> (a.effects[i].Upload? ==> a.failure.None?))
  {
  }

  /** Every exception is logged once, as the last effect, and rethrown; a run
      that completes logs no exception. */
  lemma FailuresAreLoggedAndRethrown(inv: Invocation, storage: Storage)
    ensures var r := Run(inv, storage);
            && (r.outcome.Rethrown? ==>
                  |r.effects| >= 1 && r.effects[|r.effects| - 1] == LogFailure(r.outcome.failure)
                  && forall i :: 0 <= i < |r.effects| - 1 ==> !r.effects[i].LogFailure?)
            && (r.outcome.Completed? ==> forall i :: 0 <= i < |r.effects| ==> !r.effects[i].LogFailure?)
  {
    if inv.input.Some? && GetEncoder(inv.extension).Some? {
      ProcessShape(inv, inv.input.value, GetEncoder(inv.extension).value, storage);
    }
  }

  /** An upload happens exactly when every step succeeds, and then the run
      is exactly: create the container named by the code, load, resize to
      the configured width, encode in the extension's format, upload under
      the thumbnail name. */
  lemma UploadExactlyOnSuccess(inv: Invocation, storage: Storage)
    ensures var r := Run(inv, storage);
            (exists i :: 0 <= i < |r.effects| && r.effects[i].Upload?) <==> UploadsAs(inv, storage, r.effects)
    ensures UploadsAs(inv, storage, Run(inv, storage).effects) ==> Run(inv, storage).outcome == Completed
  {
    var r := Run(inv, storage);
    if inv.input.Some? && GetEncoder(inv.extension).Some? {
      ProcessShape(inv, inv.input.value, GetEncoder(inv.extension).value, storage);
    }
    if UploadsAs(inv, storage, r.effects) {
      assert r.effects[4].Upload?;
    }
  }

  /** The destination container is created before the image is loaded and
      sized: any load or resize is preceded by the creation, at the start. */
  lemma ContainerComesFirst(inv: Invocation, storage: Storage, i: int)
    requires 0 <= i < |Run(inv, storage).effects|
    requires Run(inv, storage).effects[i].LoadImage? || Run(inv, storage).effects[i].Resize?
    ensures GetCode(inv.blobName).Ok?
    ensures 0 < i && Run(inv, storage).effects[0] == CreateContainer(GetCode(inv.blobName).value)
  {
  }

  /** A sizing failure comes after the container was created: it stays
      created, and nothing but the load happened in between. */
  lemma SizingFailureLeavesContainer(inv: Invocation, storage: Storage)
    requires Run(inv, storage).outcome.Rethrown?
    requires Run(inv, storage).outcome.failure.DivideByZero?
    ensures GetCode(inv.blobName).Ok?
    ensures Run(inv, storage).effects ==
            [CreateContainer(GetCode(inv.blobName).value), LoadImage,
             LogFailure(Run(inv, storage).outcome.failure)]
  {
  }

  /** An unset THUMBNAIL_WIDTH reads as 0 and fails at the divisor, after
      the container was created. */
  lemma UnsetWidthFailsAfterContainer(inv: Invocation, storage: Storage)
    requires inv.width == Unset
    requires inv.input.Some? && inv.input.value.Decodable?
    requires GetEncoder(inv.extension).Some?
    requires GetFilename(inv.blobName).Ok?
    requires !storage.containerFails
    ensures GetCode(inv.blobName).Ok?
    ensures Run(inv, storage) ==
            RunResult(Rethrown(DivideByZero(DivisorStep)),
                      [CreateContainer(GetCode(inv.blobName).value), LoadImage,
                       LogFailure(DivideByZero(DivisorStep))])
  {
    assert '_' in inv.blobName;
  }

  /** The upload does not overwrite: running the same event again after a
      successful run fails at the upload, with the thumbnail already there. */
  lemma RetryAfterSuccessConflicts(inv: Invocation, storage: Storage, key: BlobKey)
    requires Run(inv, storage).outcome == Completed
    requires Upload(key) in Run(inv, storage).effects
    ensures var again := Run(inv, storage.(existing := storage.existing + {key}));
            && again.outcome == Rethrown(UploadConflict)
            && again.effects == Run(inv, storage).effects[..4] + [LogFailure(UploadConflict)]
  {
    var r := Run(inv, storage);
    var i :| 0 <= i < |r.effects| && r.effects[i] == Upload(key);
    UploadExactlyOnSuccess(inv, storage);
  }

  /** A run in which every step succeeds: the thumbnail of a W x H image at
      target width t (1 <= t <= W) is t x H / (W / t), stored under the
      second piece of the name in the container named by the first. */
  lemma SuccessfulRun(inv: Invocation, storage: Storage, w: int, h: int, t: int,
                      code: string, file: string, format: Format)
    requires inv.input == Some(Decodable(w, h)) && h >= 0
    requires inv.width == Numeric(t) && IsInt32(t) && 1 <= t <= w
    requires GetEncoder(inv.extension) == Some(format)
    requires code != [] && '_' !in code && file != [] && '_' !in file
    requires inv.blobName == code + "_" + file
    requires !storage.containerFails && !storage.uploadFails
    requires BlobKey(code, file) !in storage.existing
    ensures Run(inv, storage) ==
            RunResult(Completed, [CreateContainer(code), LoadImage, Resize(t, h / (w / t)),
                                  Encode(format), Upload(BlobKey(code, file))])
  {
    TwoPartName(code, file);
    HeightIsIntegerQuotient(w, h, t);
  }

  /** A 1920 x 1080 JPEG named <code>_<file> with THUMBNAIL_WIDTH=480
      becomes a 480 x 270 JPEG named <file> in container <code> (for
      "AB_photo.jpg": "photo.jpg" in "AB"). */
  lemma EndToEndExample(inv: Invocation, storage: Storage, code: string, file: string)
    requires inv.input == Some(Decodable(1920, 1080)) && inv.width == Numeric(480)
    requires GetEncoder(inv.extension) == Some(Jpeg)
    requires code != [] && '_' !in code && file != [] && '_' !in file
    requires inv.blobName == code + "_" + file
    requires !storage.containerFails && !storage.uploadFails && storage.existing == {}
    ensures Run(inv, storage) ==
            RunResult(Completed, [CreateContainer(code), LoadImage, Resize(480, 270), Encode(Jpeg),
                                  Upload(BlobKey(code, file))])
  {
    SuccessfulRun(inv, storage, 1920, 1080, 480, code, file, Jpeg);
    assert 1080 / (1920 / 480) == 270;
  }
}

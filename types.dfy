/** Shared data declarations of the studio: the image list entries, their
    metadata, the model and resolution choices, and the Option/Result
    wrappers used for optional fields and error paths. */
module Types {

  datatype Option<+T> = None | Some(value: T)

  datatype Result<+T, +E> = Ok(value: T) | Err(error: E)

  /** Lifecycle of one uploaded image. */
  datatype ProcessingStatus = Idle | Processing | Done | Failed

  /** What the studio shows about an image: display name, formatted byte
      size, the "W x H" text and the numeric dimensions. */
  datatype ImageMetadata = ImageMetadata(
    name: string,
    size: string,
    dimensions: string,
    width: nat,
    height: nat)

  /** One entry of the image list. The browser `File` handle is not part of
      the model; the URL stands for the decoded original. */
  datatype ImageItem = ImageItem(
    id: string,
    originalUrl: string,
    originalMetadata: ImageMetadata,
    editedUrl: Option<string>,
    editedMetadata: Option<ImageMetadata>,
    status: ProcessingStatus,
    errorMessage: Option<string>)

  datatype GeminiModel = Flash | Pro

  function ModelName(m: GeminiModel): string
  {
    match m
    case Flash => "gemini-2.5-flash-image"
    case Pro => "gemini-3-pro-image-preview"
  }

  datatype Resolution = Res1K | Res2K | Res4K

  function ResolutionName(r: Resolution): string
  {
    match r
    case Res1K => "1K"
    case Res2K => "2K"
    case Res4K => "4K"
  }
}

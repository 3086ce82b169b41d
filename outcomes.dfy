/** The error conditions of the thumbnail function, and a result type that
    carries either a value or the exception the C# code would throw. */
module Outcomes {

  /** Where an integer division by zero happens in the thumbnail-size
      computation: the divisor (width / thumbnailWidth) or the new height
      (height / divisor). */
  datatype DivisionSite = DivisorStep | HeightStep

  /** The exceptions the function can raise, one constructor per kind. */
  datatype Failure =
    | FormatError            // Convert.ToInt32 of a setting that is not a number
    | OverflowError          // Convert.ToInt32 of a number outside the 32-bit range
    | ArgumentError          // a blob name without '_'
    | IndexOutOfRange        // a blob name with '_' but too few non-empty pieces
    | ContainerError         // creating the destination container failed
    | DecodeError            // the input stream is not an image
    | DivideByZero(site: DivisionSite)
    | UploadConflict         // the destination blob already exists
    | UploadError            // any other upload failure

  datatype Result<+T> = Ok(value: T) | Err(failure: Failure)

  datatype Option<+T> = None | Some(value: T)
}

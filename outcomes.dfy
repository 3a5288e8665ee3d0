/** Values shared by every operation of the Mojang downloader: optional values,
    the parser's verdict and the classified errors an operation can end with. */
module Outcomes {

  datatype Option<T> = None | Some(value: T)

  /** What `serde_json::from_str` yields for a piece of text: a document, or a
      description of why the text is not one. */
  datatype Json<D> = Parsed(value: D) | Malformed(reason: string)

  /** The failures a fetch can end with, each one distinguishable by the caller. */
  datatype Error =
    | TransportError                              // sending the request or reading the body failed
    | StatusError(status: nat)                    // `error_for_status`: a 4xx or 5xx answer
    | MalformedError(reason: string, text: string) // `MetadataError::from_json_err`: keeps the offending text
    | ValidationError                             // `Validate::validate` rejected a parsed document
    | ArchiveError                                // the archive or one of its entries could not be opened
    | NotFound                                    // "Unable to find version manifest"

  datatype Result<T> = Ok(value: T) | Err(error: Error)
}

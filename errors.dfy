/**
 * The three kinds of failure a stream reports (src/error.rs): an HTTP exchange
 * failed, an archive could not be processed, or a nested archive inside a
 * member did not hold exactly one member.
 */
module Errors {

  /** Why an HTTP exchange failed. */
  datatype HttpError =
    | Transport             // the request could not be sent or no response came back
    | Status(code: int)     // `error_for_status` refused a 4xx or 5xx status
    | Body                  // the response body could not be read

  /** Why the zip layer refused an archive or a member. */
  datatype ZipError =
    | Invalid               // the bytes are not a readable archive, or a member cannot be opened
    | Io                    // `read_exact` could not fill the member buffer

  datatype Error =
    | Http(http: HttpError)
    | ArchiveFormat(zip: ZipError)
    | ArchiveMember(name: string)
}

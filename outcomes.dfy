/** Optional values, results, and the exceptions the asset model raises. */
module Outcomes {

  /** A value or Ruby's nil. */
  datatype Option<+T> = None | Some(value: T)

  /** The exception classes of the library, plus the one I/O error the S3 layer can meet. */
  datatype Error =
    | UnknownSize(size: string)          // Imagery::Model::UnknownSize
    | UndefinedRoot                      // Imagery::Model::UndefinedRoot
    | UndefinedBucket(message: string)   // Imagery::S3::UndefinedBucket, raised with BUCKET_ERROR_MSG
    | NoSuchFile(path: string)           // Errno::ENOENT raised by File.open

  /** A returned value, or the exception that was raised instead. */
  datatype Result<+T> = Ok(value: T) | Err(error: Error)
}

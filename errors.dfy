/** Failure kinds of the three stores and the result wrappers their operations return. */
module Errors {

  /** One constructor per exception class the stores throw. The message strings are not modelled. */
  datatype Error =
    | PostNotFound      // PostNotFoundException
    | NoteNotFound      // NoteService.NotFoundException
    | CommentNotFound   // CommentNotFoundException
    | CommentDeleted    // CommentDeletedException: already deleted, or (on restore) not deleted
    | NoteDeleted       // NoteDeletedException: restoring a comment whose note is gone
    | ChatNotFound      // ChatNotFoundException
    | MessageNotFound   // MessageNotFoundException: unknown id, or editing a deleted message
    | IllegalArgument   // IllegalArgumentException: wrong owner, or a negative count

  /** The value an operation returns, or the exception it throws. */
  datatype Result<T> = Ok(value: T) | Err(error: Error)

  /** A Kotlin nullable value. */
  datatype Option<T> = None | Some(value: T)
}

/** The error values of the service: the sentinel errors of the `errs` package,
    ad-hoc messages made with `fmt.Errorf` and messages that wrap another error
    with `%w`. */
module Errs {

  datatype Error =
    | CommentContent
    | CommentNotFound
    | PostNotFound
    | InternalServerError
    | InvalidInput
    | IncorrectCommentLength
    | CommentsNotAllowed
    | ParentCommentNotFound
      /** `fmt.Errorf(text)` without a wrapped cause */
    | Message(text: string)
      /** `fmt.Errorf(context + ": %w", cause)` */
    | Wrapped(context: string, cause: Error)

  /** The text `Error()` returns. */
  function Text(e: Error): string
  {
    match e
    case CommentContent => "comment content must be between 1 and 2000 characters"
    case CommentNotFound => "comment not found"
    case PostNotFound => "post not found"
    case InternalServerError => "internal server error"
    case InvalidInput => "invalid input provided"
    case IncorrectCommentLength => "incorrect comment lenth"
    case CommentsNotAllowed => "comments not allowed"
    case ParentCommentNotFound => "parent comment not found"
    case Message(text) => text
    case Wrapped(context, cause) => context + ": " + Text(cause)
  }

  /** `errors.Is(e, target)`: `target` is `e` or a cause somewhere down its
      chain of wrapped errors. */
  predicate Is(e: Error, target: Error)
  {
    e == target || (e.Wrapped? && Is(e.cause, target))
  }

  /** Wrapping keeps every error the cause could be recognised as, and a
      wrapped message ends with the cause's own message. */
  lemma {:induction false} WrappingKeepsCause(context: string, cause: Error, target: Error)
    ensures Is(Wrapped(context, cause), target) <==> Is(cause, target) || target == Wrapped(context, cause)
    ensures var t := Text(Wrapped(context, cause));
      |t| >= |Text(cause)| && t[|t| - |Text(cause)|..] == Text(cause)
  {
  }
}

/** The comment service: reply pagination with defaults and bounds, and
    delegation to the store. Storage errors are passed on, wrapped with the
    operation's context where the service adds one. */
module CommentService {
  import opened Wrappers
  import opened Errs
  import opened Models
  import opened StoreSpec
  import opened InMemory

  const DefaultOffset: int := 0
  const DefaultLimit: int := 10
  const MaxLimit: int := 100

  const MaxLimitText: string := "maximum limit is 100"
  const NegativeOffsetText: string := "offset cannot be negative"
  const NegativeLimitText: string := "limit cannot be negative"

  /** The offset and limit handed to storage. */
  datatype Paging = Paging(offset: int, limit: int)

  /** Reply pagination as the service writes it: nil arguments take the
      defaults, then a limit above 100 is refused, then a negative offset.
      A negative limit is let through. */
  function ResolvePageAsWritten(offset: Option<int>, limit: Option<int>): (r: Result<Paging, Error>)
    ensures r.Ok? <==> offset.GetOr(DefaultOffset) >= 0 && limit.GetOr(DefaultLimit) <= MaxLimit
    ensures r.Ok? ==> r.value == Paging(offset.GetOr(DefaultOffset), limit.GetOr(DefaultLimit))
    ensures limit.GetOr(DefaultLimit) > MaxLimit ==> r == Err(Message(MaxLimitText))
    ensures limit.GetOr(DefaultLimit) <= MaxLimit && offset.GetOr(DefaultOffset) < 0 ==>
      r == Err(Message(NegativeOffsetText))
  {
    var off := offset.GetOr(DefaultOffset);
    var lim := limit.GetOr(DefaultLimit);
    if lim > MaxLimit then Err(Message(MaxLimitText))
    else if off < 0 then Err(Message(NegativeOffsetText))
    else Ok(Paging(off, lim))
  }

  /** A limit of -1 passes the written checks, yet on a comment with at least
      one reply the store's slice is then out of range. */
  lemma NegativeLimitPassesValidation(s: Store, commentId: int)
    requires |RepliesOf(s.commentMap, commentId)| > 0
    ensures ResolvePageAsWritten(None, Some(-1)) == Ok(Paging(0, -1))
    ensures !PageDefined(|RepliesOf(s.commentMap, commentId)|, 0, -1)
  {
  }

  /** Reply pagination with the bound on both sides of the limit: the same
      defaults and the same first two checks, then a negative limit is
      refused as well. */
  function ResolvePage(offset: Option<int>, limit: Option<int>): (r: Result<Paging, Error>)
    ensures r.Ok? <==> offset.GetOr(DefaultOffset) >= 0 && 0 <= limit.GetOr(DefaultLimit) <= MaxLimit
    ensures r.Ok? ==> r.value == Paging(offset.GetOr(DefaultOffset), limit.GetOr(DefaultLimit))
    ensures r.Ok? ==> forall n :: PageDefined(n, r.value.offset, r.value.limit)
    ensures limit.GetOr(DefaultLimit) > MaxLimit ==> r == Err(Message(MaxLimitText))
    ensures limit.GetOr(DefaultLimit) <= MaxLimit && offset.GetOr(DefaultOffset) < 0 ==>
      r == Err(Message(NegativeOffsetText))
  {
    match ResolvePageAsWritten(offset, limit)
    case Err(e) => Err(e)
    case Ok(p) => if p.limit < 0 then Err(Message(NegativeLimitText)) else Ok(p)
  }

  /** The correction changes the outcome exactly for the negative limits the
      written checks let through. */
  lemma {:induction false} CorrectionOnlyRefusesNegativeLimits(offset: Option<int>, limit: Option<int>)
    ensures ResolvePage(offset, limit) != ResolvePageAsWritten(offset, limit) <==>
      offset.GetOr(DefaultOffset) >= 0 && limit.GetOr(DefaultLimit) < 0
  {
  }

  /** A limit of 101 is refused with "maximum limit is 100" whatever the
      offset, and without any storage involved. */
  lemma LimitAboveMaximumRefused(offset: Option<int>)
    ensures ResolvePage(offset, Some(101)).Err?
    ensures Text(ResolvePage(offset, Some(101)).error) == "maximum limit is 100"
  {
  }

  /** A storage outcome as the service returns it: a value unchanged, an error
      wrapped in `context` so that it is still recognised as its cause. */
  function Relay<T>(context: string, stored: Result<T, Error>): (r: Result<T, Error>)
    ensures r.Ok? <==> stored.Ok?
    ensures r.Ok? ==> r.value == stored.value
    ensures r.Err? ==> r.error.Wrapped? && r.error.cause == stored.error
    ensures r.Err? ==> forall t :: Is(stored.error, t) ==> Is(r.error, t)
  {
    match stored
    case Ok(v) => Ok(v)
    case Err(e) => Err(Wrapped(context, e))
  }

  /** CreateComment: the store's result and error, unchanged. */
  method CreateComment(store: StorageMemory, newComment: NewComment, now: Time) returns (r: Result<Comment, Error>)
    requires store.Valid()
    modifies store
    ensures store.Valid()
    ensures (store.Snapshot(), r) == StoreSpec.CreateComment(old(store.Snapshot()), newComment, now)
  {
    r := store.CreateComment(newComment, now);
  }

  /** GetReplies: validation first, then one call to the store. */
  method GetReplies(store: StorageMemory, commentId: int, offset: Option<int>, limit: Option<int>)
    returns (r: Result<seq<Comment>, Error>, ghost all: seq<Comment>)
    requires store.Valid()
    ensures ResolvePage(offset, limit).Err? ==> r == Err(ResolvePage(offset, limit).error)
    ensures ResolvePage(offset, limit).Ok? ==>
      && Enumerates(store.commentMap, all, RepliesOf(store.commentMap, commentId))
      && r == Ok(Page(all, ResolvePage(offset, limit).value.offset, ResolvePage(offset, limit).value.limit))
    ensures r.Ok? ==>
      && |r.value| <= limit.GetOr(DefaultLimit)
      && (forall c | c in r.value :: c.parentId == Some(commentId))
    ensures offset.None? && limit.None? ==> r.Ok? && |r.value| <= DefaultLimit
  {
    var paging := ResolvePage(offset, limit);
    if paging.Err? {
      return Err(paging.error), [];
    }
    var replies;
    replies, all := store.GetRepliesByParentID(commentId, paging.value.offset, paging.value.limit);
    r := Relay("failed to get replies", Ok(replies));
  }

  /** GetCommentDepth: the store's depth; a store error would be wrapped. */
  method GetCommentDepth(store: StorageMemory, commentId: int) returns (r: Result<int, Error>)
    requires store.Valid()
    ensures r == Ok(Depth(store.commentMap, commentId))
  {
    var depth := store.GetCommentDepth(commentId);
    r := Relay("failed to calculate depth", Ok(depth));
  }
}

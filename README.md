# Threaded-comment store: a Dafny model

This project models the core of a threaded-comment backend written in Go. It
covers three parts:

- The in-process storage backend (`StorageMemory`). It holds three maps
  (posts by ID, each post's comment list, comments by ID) and two ID counters.
- The comment service's reply pagination (`CommentService.GetReplies`) and its
  delegation to storage.
- The start-up rule (`NewStorage`) that picks a storage backend.

The store appears twice:

- `StoreSpec` treats the store as a value, `Store`. It states the invariant
  `Inv` and gives each operation as a function from the old store to the new
  one.
- `InMemory.StorageMemory` is a class with the same five fields, updated in
  place. Each of its methods is proved to produce the store that the matching
  `StoreSpec` function describes.

The invariant says:

- every listed comment is the record stored under its ID and belongs to the
  list's post;
- every ID is below its counter;
- each per-post list is in ascending ID order (creation order);
- every parent that is present is a stored comment with a smaller ID.

That last clause is what makes the parent-pointer walk in `GetCommentDepth`
terminate. It also bounds a comment's depth by its ID.

Files:

- `wrappers.dfy`: `Option` and `Result`.
- `errs.dfy`: the error values and `errors.Is`.
- `models.dfy`: the records.
- `store_spec.dfy`: the value-level store and its lemmas.
- `in_memory.dfy`: the class.
- `comment_service.dfy`: the service.
- `storage.dfy`: backend selection.
- `scenarios.dfy`: two client methods that use the store end to end.

Behaviour of the code worth noting, which the model follows:

- The in-memory backend accepts a parent comment from *any* post. Its check
  is a lookup in the global ID map, not in the post's own comments.
  `StoreSpec.CommentRejection` states the global check.
- Replies are gathered post by post, in the order Go happens to iterate the
  map. So they come out in creation order only within one post.
  `GetRepliesByParentID` promises only that.
- The service wraps a storage error from `GetCommentDepth` ("failed to
  calculate depth: ..."). It does not pass that error on unchanged. Only
  `CreateComment` passes errors on unchanged.
- The service does not check the lower bound of a reply limit. See Findings.

## Model

| member | source | states |
|---|---|---|
| `StoreSpec.EmptyStoreInv` | internal/storage/in-memory/inMemory.go:19-27 | a fresh store has three empty maps, both counters at 0, and satisfies the invariant |
| `InMemory.StorageMemory.constructor` | internal/storage/in-memory/inMemory.go:19-27 | `NewStorageMemory` yields the empty store, which satisfies the invariant |
| `StoreSpec.CreatePost` | internal/storage/in-memory/inMemory.go:29-41 | never fails; the new post gets ID = old post counter, a key not in use, and exactly the returned post is stored under it; so the post count grows by exactly one; the counter grows by one; comments, comment map, comment counter and every existing post are unchanged; the invariant is kept |
| `InMemory.StorageMemory.CreatePost` | internal/storage/in-memory/inMemory.go:29-41 | the in-place update produces exactly the post and store that `StoreSpec.CreatePost` gives, and keeps the invariant |
| `StoreSpec.CommentRejection` | internal/storage/in-memory/inMemory.go:43-56 | creation is accepted iff the post exists, allows comments, and any given parent ID is a stored comment of any post; the errors come in fixed order: PostNotFound, then CommentsNotAllowed, then ParentCommentNotFound |
| `StoreSpec.CreateComment` | internal/storage/in-memory/inMemory.go:43-72 | succeeds exactly when `CommentRejection` finds nothing; a rejected comment leaves the whole store unchanged and returns the rejection; an accepted one gets ID = old comment counter (a fresh key) and is appended to its post's list (other lists untouched); it goes into the ID map, and the counter grows by one; posts do not change; the invariant is kept |
| `StoreSpec.CreateCommentKeepsInv` | internal/storage/in-memory/inMemory.go:58-69 | appending a comment with the counter as ID, on a stored post with a stored parent, keeps every clause of the invariant, including ascending lists and parent ID < child ID |
| `InMemory.StorageMemory.CreateComment` | internal/storage/in-memory/inMemory.go:43-72 | the in-place checks and updates produce exactly the result and store of `StoreSpec.CreateComment` |
| `StoreSpec.AllowComments` | internal/storage/in-memory/inMemory.go:74-81 | fails with PostNotFound iff the post is missing or its author differs, and then changes nothing; otherwise only that post's flag is set to `allowed` and the updated post is returned; the invariant is kept |
| `InMemory.StorageMemory.AllowComments` | internal/storage/in-memory/inMemory.go:74-81 | the in-place flag update produces exactly the result and store of `StoreSpec.AllowComments` |
| `InMemory.StorageMemory.GetPosts` | internal/storage/in-memory/inMemory.go:83-89 | returns every stored post exactly once: as many posts as stored, no ID twice, each one the stored record; no order is promised |
| `StoreSpec.GetPost` | internal/storage/in-memory/inMemory.go:91-96 | fails with PostNotFound iff the ID is not stored; otherwise returns the stored post, which carries that ID |
| `InMemory.StorageMemory.GetPost` | internal/storage/in-memory/inMemory.go:91-96 | returns what `StoreSpec.GetPost` gives, a post with the requested ID |
| `StoreSpec.Page` | internal/storage/in-memory/inMemory.go:104-113 | an offset at or past the end gives an empty page; otherwise the page holds min(limit, len - offset) elements, element i being element offset + i; the slice is only defined, not a panic, when offset and limit are non-negative |
| `StoreSpec.PostPageFacts` | internal/storage/in-memory/inMemory.go:98-114 | every comment on a page of a post's list belongs to that post and is the stored record; the page is in ascending creation order |
| `InMemory.StorageMemory.GetCommentsForPost` | internal/storage/in-memory/inMemory.go:98-114 | a post without a list gives nothing, whatever the offset; otherwise returns the page of the post's list, its comments all of that post, in creation order |
| `InMemory.StorageMemory.GatherReplies` | internal/storage/in-memory/inMemory.go:117-124 | the outer loop visits each post's list once, so every stored direct reply to the parent is collected exactly once, over all posts; comments of the same post stay in creation order |
| `InMemory.GatherFromList` | internal/storage/in-memory/inMemory.go:119-123 | the inner loop appends exactly the replies to the parent found in one post's list, in list order, without repeating an ID already gathered; what was gathered before stays, unchanged, as the prefix of the result |
| `InMemory.StorageMemory.GetRepliesByParentID` | internal/storage/in-memory/inMemory.go:116-136 | the result is a page of an enumeration of all direct replies; every returned comment has that parent; at most `limit` are returned; the page is empty when the offset is at or past the number of replies |
| `StoreSpec.EnumerationCovers` | internal/storage/in-memory/inMemory.go:117-124 | an enumeration of the reply IDs lists every one of them |
| `InMemory.StorageMemory.GetCommentDepth` | internal/storage/in-memory/inMemory.go:138-152 | the parent-pointer loop terminates (the current ID strictly decreases) and returns `Depth`: 0 for a missing or root comment, else 1 + the parent's depth; it never fails |
| `StoreSpec.DepthBelowId` | internal/storage/in-memory/inMemory.go:142-149 | a stored comment's depth is at most its ID |
| `StoreSpec.ChainDepth` | internal/storage/in-memory/inMemory.go:138-152 | in a reply chain (a root comment, each further one replying to the previous), the k-th comment has depth k, so the deepest of N has depth N - 1 |
| `StoreSpec.DepthUnchangedByInsert` | internal/storage/in-memory/inMemory.go:142-149 | storing a new comment leaves the depth of every stored comment unchanged |
| `StoreSpec.CreateCommentDepths` | internal/storage/in-memory/inMemory.go:58-69 | after creation the new comment has depth 0 if it has no parent, else 1 + its parent's depth; no other comment's depth changes |
| `CommentService.ResolvePageAsWritten` | internal/service/comment_service/comment.go:35-50 | nil offset reads as 0 and nil limit as 10; accepted iff offset >= 0 and limit <= 100; otherwise "maximum limit is 100" when the limit is above 100 (checked first, so it wins when both are bad), else "offset cannot be negative" |
| `CommentService.NegativeLimitPassesValidation` | internal/service/comment_service/comment.go:45-50 | a limit of -1 passes the checks as written, yet on a comment with a reply the store's slice is then out of range |
| `CommentService.ResolvePage` | internal/service/comment_service/comment.go:35-50 | same defaults and first two checks; a negative limit is refused too, so every accepted pair gives a defined page for any number of replies |
| `CommentService.CorrectionOnlyRefusesNegativeLimits` | internal/service/comment_service/comment.go:45-50 | the corrected check differs from the written one exactly for offset >= 0 with a negative limit |
| `CommentService.LimitAboveMaximumRefused` | internal/service/comment_service/comment_test.go:47-53 | a limit of 101 is refused with the text "maximum limit is 100", whatever the offset and without storage |
| `CommentService.Relay` | internal/service/comment_service/comment.go:57-68 | a storage value is returned unchanged; a storage error is never swallowed: it comes back wrapped, with the original as its cause, and `errors.Is` still recognises it |
| `Errs.WrappingKeepsCause` | internal/service/comment_service/comment.go:62-62 | a wrapped error is recognised as everything its cause is, and its text ends with the cause's text |
| `CommentService.CreateComment` | internal/service/comment_service/comment.go:21-31 | returns the store's comment or error unchanged, with the store's effect |
| `CommentService.GetReplies` | internal/service/comment_service/comment.go:33-69 | a validation error comes back without storage being asked; otherwise the result is the store's page of replies at the resolved offset and limit; all have the requested parent; at most `limit` (10 by default) are returned |
| `CommentService.GetCommentDepth` | internal/service/comment_service/comment.go:71-87 | returns the store's depth of the comment |
| `Storage.NewStorage` | internal/storage/interface.go:31-48 | "memory" selects the in-memory store with or without a pool; "db" panics without a pool and selects the database with one; any other value, the empty one included, selects the database iff a pool is present |

## Findings

| source | as written | input that shows it | evidently intended | confidence | as-written member | corrected member |
|---|---|---|---|---|---|---|
| internal/service/comment_service/comment.go:45-50 | only `limit > 100` and `offset < 0` are refused, so a negative limit reaches storage | `GetReplies(id, nil, -1)` for a comment with one reply: the in-memory store computes `end = 0 + -1` and takes `replies[0:-1]`, which panics | the limit is bounded on both sides, `0 <= limit <= 100` | medium; not executed | `CommentService.NegativeLimitPassesValidation` (on `CommentService.ResolvePageAsWritten`) | `CommentService.ResolvePage` |

## Left out

- The database backend (internal/storage/db/db.go) is not part of this model. Its behaviour lives in SQL run by the database engine: the transaction, ordering and paging in the queries, and the recursive depth query.
- The subscription service (internal/service/subscription/subscription.go) is not part of this model. It is a mutex-guarded channel registry for concurrent delivery, and only its Subscribe body is available.
- The post service (internal/service/post_service/post.go) is not part of this model. It is pass-through with logging and does no validation of its own.
- Logging, configuration, database pool connection and server wiring are not modelled: internal/log, internal/config, cmd/main.go, graph/resolver.go.
- The record mappers in internal/utils/mapper only copy fields and are not modelled.
- Go's `context.Context` parameters and all logging calls are dropped.
- `time.Now()`: the timestamp is a parameter `now`, treated as an opaque value.
- Author UUIDs are kept as their canonical text, which is what `AllowComments` compares. The `uuid` library's parsing and formatting are not modelled.
- The `Comments` field of Post is never filled in by the in-memory store and is not modelled.
- Go map iteration order in `GetPosts` and in the outer loop of `GetRepliesByParentID` is not modelled. Each next key is an arbitrary remaining one, and no order across posts is claimed.
- Aliasing is not modelled. Go returns pointers to the stored records, so a post a caller got earlier changes when `AllowComments` later sets its flag. The model returns values. `CreateComment` also stores the caller's `ParentID` pointer (inMemory.go:62). A later write through that pointer would change a stored parent and could break `ParentsPrecede`, on which the termination of the depth walk rests; the model takes the parent by value, so this cannot happen in it.
- `Errs.Is`: `Message` and `Wrapped` errors compare structurally, so two equal values built separately count as the same error. Go's `errors.Is` compares such `fmt.Errorf` results by pointer identity. Only the sentinel errors, which are single values in Go too, compare exactly as in the source.
- A nil slice and an empty slice are not distinguished: both are the empty sequence.
- int64 arithmetic is not modelled: the model uses mathematical integers, so the wrap-around of the two counters and of `offset + limit` after 2^63 is not captured.
- Slices whose bounds would panic are excluded by preconditions: `PageDefined` is exactly the condition under which the Go slice is in range. `GetCommentsForPost` requires it only when the post has a comment list, since without one the source returns before slicing.
- The `Storage` interface is modelled only through its in-memory implementation. The service methods take that store directly.
- `CommentService.GetReplies`: refuses a negative limit with "limit cannot be negative", which the source lets through to storage. It uses the corrected check; see Findings.
- `CommentService.GetCommentDepth`: the in-memory depth walk never fails, so the branch that wraps a storage error as "failed to calculate depth: ..." cannot be reached through this store. That branch is stated, for any storage outcome, by `CommentService.Relay`.
- `CommentService.CreateComment`: the store's errors come back unchanged, as the source does. The store interface's other possible failures (those of a database) are not reachable here.

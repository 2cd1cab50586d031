/** Client code of the in-process store, showing what its specifications let a
    caller conclude. */
module Scenarios {
  import opened Wrappers
  import opened Errs
  import opened Models
  import opened StoreSpec
  import opened InMemory

  /** A post open to comments, a root comment C1 and a reply C2 to it: C1 has
      depth 0, C2 depth 1, and the first page of replies to C1 is [C2]. */
  method ReplyThread(author: AuthorId, t0: Time, t1: Time, t2: Time)
  {
    var store := new StorageMemory();
    var post := store.CreatePost(NewPost(author, "title", "content", true), t0);
    var r1 := store.CreateComment(NewComment(author, post.id, None, "first"), t1);
    assert r1.Ok?;
    var c1 := r1.value;
    var r2 := store.CreateComment(NewComment(author, post.id, Some(c1.id), "reply"), t2);
    assert r2.Ok?;
    var c2 := r2.value;
    assert c1.id == 0 && c2.id == 1;

    var d1 := store.GetCommentDepth(c1.id);
    var d2 := store.GetCommentDepth(c2.id);
    assert d1 == 0 && d2 == 1;

    assert RepliesOf(store.commentMap, c1.id) == {c2.id} by {
      assert store.commentMap == map[0 := c1, 1 := c2];
    }
    var replies, all := store.GetRepliesByParentID(c1.id, 0, 10);
    assert all[0] == c2;
    assert replies == [c2];
  }

  /** On a post closed to comments, creation fails with CommentsNotAllowed and
      nothing is stored. */
  method ClosedPost(author: AuthorId, t0: Time, t1: Time)
  {
    var store := new StorageMemory();
    var post := store.CreatePost(NewPost(author, "title", "content", false), t0);
    var r := store.CreateComment(NewComment(author, post.id, None, "first"), t1);
    assert r == Err(CommentsNotAllowed);
    assert store.commentMap == map[] && store.comments == map[];
  }
}

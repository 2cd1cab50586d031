/** The in-process storage backend: three maps and two counters, updated in
    place, with no locking (one writer at a time). Each method is proved to
    produce the store that the matching function of `StoreSpec` describes. */
module InMemory {
  import opened Wrappers
  import opened Errs
  import opened Models
  import opened StoreSpec

  /** Every element of `replies` is a stored direct reply to `parentId` whose
      post is in `done`. */
  ghost predicate GatheredFrom(cm: map<int, Comment>, parentId: int, replies: seq<Comment>, done: set<int>)
  {
    forall i | 0 <= i < |replies| ::
      && replies[i].parentId == Some(parentId)
      && replies[i].id in cm
      && cm[replies[i].id] == replies[i]
      && replies[i].postId in done
  }

  ghost predicate DistinctIds(replies: seq<Comment>)
  {
    forall i, j | 0 <= i < j < |replies| :: replies[i].id != replies[j].id
  }

  /** Comments of the same post keep their creation order. */
  ghost predicate PostOrdered(replies: seq<Comment>)
  {
    forall i, j | 0 <= i < j < |replies| && replies[i].postId == replies[j].postId ::
      replies[i].id < replies[j].id
  }

  /** Every stored direct reply to `parentId` whose post is in `done` is in
      `replies`. */
  ghost predicate CoversPosts(cm: map<int, Comment>, parentId: int, replies: seq<Comment>, done: set<int>)
  {
    forall id | id in cm && cm[id].parentId == Some(parentId) && cm[id].postId in done ::
      exists i :: 0 <= i < |replies| && replies[i].id == id
  }

  /** `list` is the stored comment list of post `p`. */
  ghost predicate StoredList(cm: map<int, Comment>, p: int, list: seq<Comment>)
  {
    forall k | 0 <= k < |list| :: list[k].postId == p && list[k].id in cm && cm[list[k].id] == list[k]
  }

  ghost predicate Ascending(list: seq<Comment>)
  {
    forall k, l | 0 <= k < l < |list| :: list[k].id < list[l].id
  }

  /** Every reply to `parentId` among `list[..j]` is in `replies`. */
  ghost predicate CoversPrefix(parentId: int, replies: seq<Comment>, list: seq<Comment>, j: int)
  {
    forall k | 0 <= k < j && k < |list| && list[k].parentId == Some(parentId) ::
      exists i :: 0 <= i < |replies| && replies[i].id == list[k].id
  }

  /** One step of the inner loop of GetRepliesByParentID: appending the
      reply `list[j]` keeps the loop's facts. */
  lemma AppendReply(cm: map<int, Comment>, parentId: int, replies: seq<Comment>, list: seq<Comment>,
                    j: nat, start: nat, p: int, done: set<int>)
    requires StoredList(cm, p, list) && Ascending(list)
    requires j < |list| && list[j].parentId == Some(parentId)
    requires start <= |replies|
    requires GatheredFrom(cm, parentId, replies, done + {p})
    requires DistinctIds(replies) && PostOrdered(replies)
    requires CoversPosts(cm, parentId, replies, done)
    requires CoversPrefix(parentId, replies, list, j)
    requires forall i | 0 <= i < start :: replies[i].postId != p
    requires forall i | start <= i < |replies| :: replies[i].postId == p && replies[i].id < list[j].id
    ensures GatheredFrom(cm, parentId, replies + [list[j]], done + {p})
    ensures DistinctIds(replies + [list[j]]) && PostOrdered(replies + [list[j]])
    ensures CoversPosts(cm, parentId, replies + [list[j]], done)
    ensures CoversPrefix(parentId, replies + [list[j]], list, j + 1)
    ensures forall i | start <= i < |replies| + 1 ::
      (replies + [list[j]])[i].postId == p && (j + 1 < |list| ==> (replies + [list[j]])[i].id < list[j + 1].id)
  {
    AppendKeepsDistinct(cm, parentId, replies, list[j], start, p, done);
    AppendKeepsOrder(replies, list[j], start, p);
    AppendKeepsCover(cm, parentId, replies, list, j, done);
    if j + 1 < |list| {
      assert list[j].id < list[j + 1].id;
    }
  }

  lemma AppendKeepsDistinct(cm: map<int, Comment>, parentId: int, replies: seq<Comment>, c: Comment,
                            start: nat, p: int, done: set<int>)
    requires c.id in cm && cm[c.id] == c && c.postId == p
    requires start <= |replies|
    requires GatheredFrom(cm, parentId, replies, done + {p})
    requires DistinctIds(replies)
    requires forall i | 0 <= i < start :: replies[i].postId != p
    requires forall i | start <= i < |replies| :: replies[i].id < c.id
    ensures DistinctIds(replies + [c])
  {
    forall i | 0 <= i < |replies| ensures replies[i].id != c.id {
      if i < start {
        assert replies[i].postId != p;
      }
    }
  }

  lemma AppendKeepsOrder(replies: seq<Comment>, c: Comment, start: nat, p: int)
    requires c.postId == p && start <= |replies|
    requires PostOrdered(replies)
    requires forall i | 0 <= i < start :: replies[i].postId != p
    requires forall i | start <= i < |replies| :: replies[i].id < c.id
    ensures PostOrdered(replies + [c])
  {
  }

  lemma AppendKeepsCover(cm: map<int, Comment>, parentId: int, replies: seq<Comment>, list: seq<Comment>,
                         j: nat, done: set<int>)
    requires j < |list|
    requires CoversPosts(cm, parentId, replies, done)
    requires CoversPrefix(parentId, replies, list, j)
    ensures CoversPosts(cm, parentId, replies + [list[j]], done)
    ensures CoversPrefix(parentId, replies + [list[j]], list, j + 1)
  {
    var next := replies + [list[j]];
    forall id | id in cm && cm[id].parentId == Some(parentId) && cm[id].postId in done
      ensures exists i :: 0 <= i < |next| && next[i].id == id
    {
      var i :| 0 <= i < |replies| && replies[i].id == id;
      assert next[i].id == id;
    }
    forall k | 0 <= k < j + 1 && k < |list| && list[k].parentId == Some(parentId)
      ensures exists i :: 0 <= i < |next| && next[i].id == list[k].id
    {
      if k == j {
        assert next[|replies|].id == list[k].id;
      } else {
        var i :| 0 <= i < |replies| && replies[i].id == list[k].id;
        assert next[i].id == list[k].id;
      }
    }
  }

  /** What the invariant says about the comment list of one post. */
  lemma ListFacts(s: Store, p: int)
    requires Inv(s) && p in s.comments
    ensures StoredList(s.commentMap, p, s.comments[p]) && Ascending(s.comments[p])
    ensures forall id | id in s.commentMap && s.commentMap[id].postId == p ::
      s.commentMap[id].id == id && s.commentMap[id] in s.comments[p]
  {
  }

  /** Once the whole list of post `p` is scanned, every reply on `p` is
      gathered. */
  lemma PostCovered(cm: map<int, Comment>, parentId: int, replies: seq<Comment>, list: seq<Comment>,
                    p: int, done: set<int>)
    requires forall id | id in cm && cm[id].postId == p :: cm[id].id == id && cm[id] in list
    requires CoversPosts(cm, parentId, replies, done)
    requires CoversPrefix(parentId, replies, list, |list|)
    ensures CoversPosts(cm, parentId, replies, done + {p})
  {
    forall id | id in cm && cm[id].parentId == Some(parentId) && cm[id].postId in done + {p}
      ensures exists i :: 0 <= i < |replies| && replies[i].id == id
    {
      if cm[id].postId == p {
        var k :| 0 <= k < |list| && list[k] == cm[id];
        assert list[k].parentId == Some(parentId);
      }
    }
  }

  /** The inner gathering loop of GetRepliesByParentID: append, in list
      order, the comments of post `p` whose parent is `parentId`. */
  method GatherFromList(cm: map<int, Comment>, parentId: int, list: seq<Comment>, p: int,
                        ghost done: set<int>, replies0: seq<Comment>) returns (replies: seq<Comment>)
    requires StoredList(cm, p, list) && Ascending(list)
    requires forall id | id in cm && cm[id].postId == p :: cm[id].id == id && cm[id] in list
    requires p !in done
    requires GatheredFrom(cm, parentId, replies0, done)
    requires DistinctIds(replies0) && PostOrdered(replies0)
    requires CoversPosts(cm, parentId, replies0, done)
    ensures |replies0| <= |replies| && replies[..|replies0|] == replies0
    ensures GatheredFrom(cm, parentId, replies, done + {p})
    ensures DistinctIds(replies) && PostOrdered(replies)
    ensures CoversPosts(cm, parentId, replies, done + {p})
  {
    replies := replies0;
    ghost var start := |replies|;
    var j := 0;
    while j < |list|
      invariant 0 <= j <= |list|
      invariant start == |replies0| <= |replies| && replies[..start] == replies0
      invariant GatheredFrom(cm, parentId, replies, done + {p})
      invariant DistinctIds(replies) && PostOrdered(replies)
      invariant CoversPosts(cm, parentId, replies, done)
      invariant CoversPrefix(parentId, replies, list, j)
      invariant forall i | 0 <= i < start :: replies[i].postId != p
      invariant forall i | start <= i < |replies| ::
        replies[i].postId == p && (j < |list| ==> replies[i].id < list[j].id)
    {
      var comment := list[j];
      if comment.parentId.Some? && comment.parentId.value == parentId {
        AppendReply(cm, parentId, replies, list, j, start, p, done);
        replies := replies + [comment];
      } else if j + 1 < |list| {
        assert list[j].id < list[j + 1].id;
      }
      j := j + 1;
    }
    PostCovered(cm, parentId, replies, list, p, done);
  }

  class StorageMemory {
    var posts: map<int, Post>
    var comments: map<int, seq<Comment>>
    var commentMap: map<int, Comment>
    var postCounter: int
    var commentCounter: int

    /** The five fields as one value. */
    function Snapshot(): Store
      reads this
    {
      Store(posts, comments, commentMap, postCounter, commentCounter)
    }

    ghost predicate Valid()
      reads this
    {
      Inv(Snapshot())
    }

    /** NewStorageMemory: empty maps, both counters at 0. */
    constructor ()
      ensures Valid()
      ensures Snapshot() == EmptyStore
    {
      posts := map[];
      comments := map[];
      commentMap := map[];
      postCounter := 0;
      commentCounter := 0;
      new;
      EmptyStoreInv();
    }

    method CreatePost(newPost: NewPost, now: Time) returns (post: Post)
      requires Valid()
      modifies this
      ensures Valid()
      ensures (Snapshot(), post) == StoreSpec.CreatePost(old(Snapshot()), newPost, now)
    {
      post := Post(postCounter, newPost.authorId, newPost.title, newPost.content, newPost.commentsAllowed, now);
      posts := posts[post.id := post];
      postCounter := postCounter + 1;
    }

    method CreateComment(newComment: NewComment, now: Time) returns (r: Result<Comment, Error>)
      requires Valid()
      modifies this
      ensures Valid()
      ensures (Snapshot(), r) == StoreSpec.CreateComment(old(Snapshot()), newComment, now)
    {
      ghost var s := Snapshot();
      if newComment.postId !in posts {
        assert CommentRejection(s, newComment) == Some(PostNotFound);
        return Err(PostNotFound);
      }
      var post := posts[newComment.postId];
      if !post.commentsAllowed {
        assert CommentRejection(s, newComment) == Some(CommentsNotAllowed);
        return Err(CommentsNotAllowed);
      }
      if newComment.parentId.Some? {
        if newComment.parentId.value !in commentMap {
          assert CommentRejection(s, newComment) == Some(ParentCommentNotFound);
          return Err(ParentCommentNotFound);
        }
      }
      assert CommentRejection(s, newComment).None?;
      var comment := Comment(commentCounter, newComment.authorId, newComment.postId,
                             newComment.parentId, newComment.content, now);
      var list := if comment.postId in comments then comments[comment.postId] else [];
      comments := comments[comment.postId := list + [comment]];
      commentMap := commentMap[comment.id := comment];
      commentCounter := commentCounter + 1;
      r := Ok(comment);
      assert Snapshot() == Appended(s, comment);
      CreateCommentKeepsInv(s, comment, Snapshot());
    }

    method AllowComments(authorId: AuthorId, postId: int, allowed: bool) returns (r: Result<Post, Error>)
      requires Valid()
      modifies this
      ensures Valid()
      ensures (Snapshot(), r) == StoreSpec.AllowComments(old(Snapshot()), authorId, postId, allowed)
    {
      if postId !in posts || posts[postId].authorId != authorId {
        return Err(PostNotFound);
      }
      var post := posts[postId].(commentsAllowed := allowed);
      posts := posts[postId := post];
      r := Ok(post);
    }

    /** GetPosts: every stored post exactly once, in no particular order. */
    method GetPosts() returns (r: seq<Post>)
      requires Valid()
      ensures |r| == |posts|
      ensures forall i | 0 <= i < |r| :: r[i].id in posts && posts[r[i].id] == r[i]
      ensures forall i, j | 0 <= i < j < |r| :: r[i].id != r[j].id
      ensures forall p | p in posts :: posts[p] in r
    {
      r := [];
      var remaining := posts.Keys;
      while remaining != {}
        invariant remaining <= posts.Keys
        invariant |r| + |remaining| == |posts.Keys|
        invariant forall i | 0 <= i < |r| :: r[i].id in posts.Keys - remaining && posts[r[i].id] == r[i]
        invariant forall i, j | 0 <= i < j < |r| :: r[i].id != r[j].id
        invariant forall p | p in posts.Keys - remaining :: posts[p] in r
        decreases |remaining|
      {
        NonEmptyHasElement(remaining);
        var p :| p in remaining;
        r := r + [posts[p]];
        remaining := remaining - {p};
      }
    }

    method GetPost(id: int) returns (r: Result<Post, Error>)
      requires Valid()
      ensures r == StoreSpec.GetPost(Snapshot(), id)
      ensures r.Ok? ==> r.value.id == id
    {
      if id in posts {
        return Ok(posts[id]);
      }
      return Err(PostNotFound);
    }

    /** GetCommentsForPost: a page of the post's comments, in creation order;
        nothing, for any offset, when the post has no comment list. */
    method GetCommentsForPost(postId: int, offset: int, limit: int) returns (r: seq<Comment>)
      requires Valid()
      requires postId in comments ==> PageDefined(|comments[postId]|, offset, limit)
      ensures postId !in comments ==> r == []
      ensures postId in comments ==> r == Page(comments[postId], offset, limit)
      ensures forall c | c in r :: c.postId == postId && c.id in commentMap && commentMap[c.id] == c
      ensures forall i, j | 0 <= i < j < |r| :: r[i].id < r[j].id
    {
      if postId !in comments {
        return [];
      }
      PostPageFacts(Snapshot(), postId, offset, limit);
      var list := comments[postId];
      if offset >= |list| {
        return [];
      }
      var end := offset + limit;
      if end > |list| {
        end := |list|;
      }
      r := list[offset..end];
    }

    /** GetRepliesByParentID: the direct replies to `parentId`, gathered post
        by post in the map's iteration order (`all`), and then paged. */
    method GetRepliesByParentID(parentId: int, offset: int, limit: int) returns (r: seq<Comment>, ghost all: seq<Comment>)
      requires Valid()
      requires PageDefined(|RepliesOf(commentMap, parentId)|, offset, limit)
      ensures Enumerates(commentMap, all, RepliesOf(commentMap, parentId))
      ensures PostOrdered(all)
      ensures r == Page(all, offset, limit)
      ensures forall c | c in r :: c.parentId == Some(parentId) && c.id in commentMap && commentMap[c.id] == c
    {
      var replies := GatherReplies(parentId);
      all := replies;
      if offset >= |replies| {
        return [], all;
      }
      var end := offset + limit;
      if end > |replies| {
        end := |replies|;
      }
      r := replies[offset..end];
      forall c | c in r ensures c.parentId == Some(parentId) && c.id in commentMap && commentMap[c.id] == c {
        var i :| 0 <= i < |r| && r[i] == c;
        assert c == replies[offset + i];
      }
    }

    /** The outer gathering loop of GetRepliesByParentID: visit each post's
        list once, in the map's iteration order. */
    method GatherReplies(parentId: int) returns (replies: seq<Comment>)
      requires Valid()
      ensures Enumerates(commentMap, replies, RepliesOf(commentMap, parentId))
      ensures PostOrdered(replies)
    {
      var cm := commentMap;
      var lists := comments;
      replies := [];
      var remaining := lists.Keys;
      while remaining != {}
        invariant remaining <= lists.Keys
        invariant GatheredFrom(cm, parentId, replies, lists.Keys - remaining)
        invariant DistinctIds(replies) && PostOrdered(replies)
        invariant CoversPosts(cm, parentId, replies, lists.Keys - remaining)
        decreases |remaining|
      {
        NonEmptyHasElement(remaining);
        var p :| p in remaining;
        ghost var done := lists.Keys - remaining;
        ListFacts(Snapshot(), p);
        replies := GatherFromList(cm, parentId, lists[p], p, done, replies);
        assert lists.Keys - (remaining - {p}) == done + {p};
        remaining := remaining - {p};
      }
      RepliesEnumerated(replies, parentId);
    }

    /** At the end of the gathering loop, the list of replies is an
        enumeration of all stored direct replies. */
    lemma RepliesEnumerated(all: seq<Comment>, parentId: int)
      requires Valid()
      requires GatheredFrom(commentMap, parentId, all, comments.Keys)
      requires DistinctIds(all)
      requires CoversPosts(commentMap, parentId, all, comments.Keys)
      ensures Enumerates(commentMap, all, RepliesOf(commentMap, parentId))
    {
      var ids := RepliesOf(commentMap, parentId);
      var listed := set i | 0 <= i < |all| :: all[i].id;
      DistinctIdsCard(all);
      forall x | x in listed ensures x in ids {
        var i :| 0 <= i < |all| && all[i].id == x;
      }
      forall x | x in ids ensures x in listed {
        var i :| 0 <= i < |all| && all[i].id == x;
      }
      assert listed == ids;
    }

    /** GetCommentDepth: walk parent pointers until a comment is missing or
        has no parent, counting the steps. */
    method GetCommentDepth(commentId: int) returns (depth: int)
      requires Valid()
      ensures depth == Depth(commentMap, commentId)
    {
      depth := 0;
      var currentId := commentId;
      while currentId in commentMap && commentMap[currentId].parentId.Some?
        invariant depth + Depth(commentMap, currentId) == Depth(commentMap, commentId)
        decreases if currentId in commentMap then currentId else 0
      {
        depth := depth + 1;
        currentId := commentMap[currentId].parentId.value;
      }
    }
  }
}

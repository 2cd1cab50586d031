/** The in-process comment store as a value: its five fields, the invariant
    every operation keeps, and each operation as a function from the old store
    to the new one. The class `InMemory.StorageMemory` is proved to follow
    these functions. */
module StoreSpec {
  import opened Wrappers
  import opened Errs
  import opened Models

  datatype Store = Store(
    posts: map<int, Post>,
    comments: map<int, seq<Comment>>,
    commentMap: map<int, Comment>,
    postCounter: int,
    commentCounter: int)

  /** The store right after construction. */
  const EmptyStore: Store := Store(map[], map[], map[], 0, 0)

  /** The comment list of a post; a post without a list reads as empty. */
  function CommentsOf(s: Store, postId: int): seq<Comment>
  {
    if postId in s.comments then s.comments[postId] else []
  }

  // ---------------------------------------------------------------------
  // The invariant
  // ---------------------------------------------------------------------

  /** Every comment ID is non-negative and every parent that is present is a
      stored comment with a smaller ID: parent pointers lead strictly down. */
  ghost predicate ParentsPrecede(cm: map<int, Comment>)
  {
    forall id | id in cm ::
      0 <= id && (cm[id].parentId.Some? ==> cm[id].parentId.value in cm && cm[id].parentId.value < id)
  }

  /** Posts are stored under their own ID, below the post counter; only
      existing posts have a comment list. */
  ghost predicate PostsKeyed(s: Store)
  {
    && (forall p | p in s.posts :: s.posts[p].id == p && 0 <= p < s.postCounter)
    && s.comments.Keys <= s.posts.Keys
  }

  /** Each comment in the list of post `p` belongs to `p` and is the record
      stored under its ID. */
  ghost predicate ListsConsistent(s: Store)
  {
    forall p, i | p in s.comments && 0 <= i < |s.comments[p]| ::
      && s.comments[p][i].postId == p
      && s.comments[p][i].id in s.commentMap
      && s.commentMap[s.comments[p][i].id] == s.comments[p][i]
  }

  /** Each comment list is in strictly ascending ID order, that is, in
      creation order. */
  ghost predicate ListsAscending(s: Store)
  {
    forall p, i, j | p in s.comments && 0 <= i < j < |s.comments[p]| ::
      s.comments[p][i].id < s.comments[p][j].id
  }

  /** Each comment stored by ID carries that ID, lies below the comment
      counter and appears in the list of its post. */
  ghost predicate MapIndexed(s: Store)
  {
    forall id | id in s.commentMap ::
      && s.commentMap[id].id == id
      && id < s.commentCounter
      && s.commentMap[id].postId in s.comments
      && s.commentMap[id] in s.comments[s.commentMap[id].postId]
  }

  ghost predicate Inv(s: Store)
  {
    && 0 <= s.postCounter
    && 0 <= s.commentCounter
    && PostsKeyed(s)
    && ListsConsistent(s)
    && ListsAscending(s)
    && MapIndexed(s)
    && ParentsPrecede(s.commentMap)
  }

  lemma EmptyStoreInv()
    ensures Inv(EmptyStore)
    ensures EmptyStore.posts == map[] && EmptyStore.comments == map[] && EmptyStore.commentMap == map[]
    ensures EmptyStore.postCounter == 0 && EmptyStore.commentCounter == 0
  {
  }

  // ---------------------------------------------------------------------
  // Creating posts and comments
  // ---------------------------------------------------------------------

  /** CreatePost: the new post takes the post counter as its ID. */
  function CreatePost(s: Store, np: NewPost, now: Time): (r: (Store, Post))
    ensures r.1 == Post(s.postCounter, np.authorId, np.title, np.content, np.commentsAllowed, now)
    ensures r.0.posts == s.posts[s.postCounter := r.1]
    ensures r.0.postCounter == s.postCounter + 1
    ensures r.0.comments == s.comments && r.0.commentMap == s.commentMap
    ensures r.0.commentCounter == s.commentCounter
    ensures Inv(s) ==> Inv(r.0)
    ensures Inv(s) ==> r.1.id !in s.posts && |r.0.posts| == |s.posts| + 1
    ensures Inv(s) ==> forall p | p in s.posts :: p in r.0.posts && r.0.posts[p] == s.posts[p]
  {
    var post := Post(s.postCounter, np.authorId, np.title, np.content, np.commentsAllowed, now);
    (s.(posts := s.posts[post.id := post], postCounter := s.postCounter + 1), post)
  }

  /** The checks CreateComment makes, in the order it makes them. The parent
      may belong to any post. */
  function CommentRejection(s: Store, nc: NewComment): (e: Option<Error>)
    ensures e.None? <==>
      && nc.postId in s.posts
      && s.posts[nc.postId].commentsAllowed
      && (nc.parentId.Some? ==> nc.parentId.value in s.commentMap)
    ensures nc.postId !in s.posts ==> e == Some(PostNotFound)
    ensures nc.postId in s.posts && !s.posts[nc.postId].commentsAllowed ==> e == Some(CommentsNotAllowed)
    ensures e == Some(ParentCommentNotFound) <==>
      && nc.postId in s.posts
      && s.posts[nc.postId].commentsAllowed
      && nc.parentId.Some? && nc.parentId.value !in s.commentMap
  {
    if nc.postId !in s.posts then Some(PostNotFound)
    else if !s.posts[nc.postId].commentsAllowed then Some(CommentsNotAllowed)
    else if nc.parentId.Some? && nc.parentId.value !in s.commentMap then Some(ParentCommentNotFound)
    else None
  }

  /** CreateComment: on a failed check nothing changes; otherwise the comment
      takes the comment counter as its ID, is appended to its post's list and
      is stored under its ID. */
  function CreateComment(s: Store, nc: NewComment, now: Time): (r: (Store, Result<Comment, Error>))
    ensures r.1.Ok? <==> CommentRejection(s, nc).None?
    ensures CommentRejection(s, nc).Some? ==> r == (s, Err(CommentRejection(s, nc).value))
    ensures r.1.Ok? ==>
      && CommentRejection(s, nc).None?
      && r.1.value == Comment(s.commentCounter, nc.authorId, nc.postId, nc.parentId, nc.content, now)
      && CommentsOf(r.0, nc.postId) == CommentsOf(s, nc.postId) + [r.1.value]
      && (forall p | p != nc.postId :: CommentsOf(r.0, p) == CommentsOf(s, p))
      && r.0.commentMap == s.commentMap[r.1.value.id := r.1.value]
      && r.0.commentCounter == s.commentCounter + 1
      && r.0.posts == s.posts && r.0.postCounter == s.postCounter
    ensures Inv(s) ==> Inv(r.0)
    ensures Inv(s) && r.1.Ok? ==> r.1.value.id !in s.commentMap && |r.0.commentMap| == |s.commentMap| + 1
  {
    match CommentRejection(s, nc)
    case Some(e) => (s, Err(e))
    case None =>
      var c := Comment(s.commentCounter, nc.authorId, nc.postId, nc.parentId, nc.content, now);
      var t := Appended(s, c);
      CreateCommentKeepsInv(s, c, t);
      (t, Ok(c))
  }

  /** The store after `c` is appended to its post's list and stored under
      its ID, with the comment counter advanced. */
  function Appended(s: Store, c: Comment): Store
  {
    s.(comments := s.comments[c.postId := CommentsOf(s, c.postId) + [c]],
       commentMap := s.commentMap[c.id := c],
       commentCounter := s.commentCounter + 1)
  }

  /** Appending a comment that takes the counter as its ID, belongs to a
      stored post and has a stored parent keeps the invariant. */
  lemma CreateCommentKeepsInv(s: Store, c: Comment, t: Store)
    requires c.id == s.commentCounter && c.postId in s.posts
    requires c.parentId.Some? ==> c.parentId.value in s.commentMap
    requires t == Appended(s, c)
    ensures Inv(s) ==> Inv(t)
  {
    if Inv(s) {
      AppendKeepsListsConsistent(s, c);
      AppendKeepsListsAscending(s, c);
      AppendKeepsMapIndexed(s, c);
    }
  }

  lemma AppendKeepsListsConsistent(s: Store, c: Comment)
    requires Inv(s) && c.id == s.commentCounter
    ensures ListsConsistent(Appended(s, c))
  {
    var t := Appended(s, c);
    var n := |CommentsOf(s, c.postId)|;
    forall p, i | p in t.comments && 0 <= i < |t.comments[p]|
      ensures t.comments[p][i].postId == p
      ensures t.comments[p][i].id in t.commentMap
      ensures t.commentMap[t.comments[p][i].id] == t.comments[p][i]
    {
      if p == c.postId && i == n {
        assert t.comments[p][i] == c;
      } else {
        assert t.comments[p][i] == s.comments[p][i];
        assert s.comments[p][i].id in s.commentMap;
      }
    }
  }

  lemma AppendKeepsListsAscending(s: Store, c: Comment)
    requires Inv(s) && c.id == s.commentCounter
    ensures ListsAscending(Appended(s, c))
  {
    var t := Appended(s, c);
    var n := |CommentsOf(s, c.postId)|;
    forall p, i, j | p in t.comments && 0 <= i < j < |t.comments[p]|
      ensures t.comments[p][i].id < t.comments[p][j].id
    {
      if p == c.postId && j == n {
        assert t.comments[p][i] == s.comments[p][i];
        assert s.comments[p][i].id in s.commentMap;
      } else {
        assert t.comments[p][i] == s.comments[p][i] && t.comments[p][j] == s.comments[p][j];
      }
    }
  }

  lemma AppendKeepsMapIndexed(s: Store, c: Comment)
    requires Inv(s) && c.id == s.commentCounter
    ensures MapIndexed(Appended(s, c))
  {
    var t := Appended(s, c);
    var n := |CommentsOf(s, c.postId)|;
    forall id | id in t.commentMap
      ensures t.commentMap[id].id == id && id < t.commentCounter
      ensures t.commentMap[id].postId in t.comments
      ensures t.commentMap[id] in t.comments[t.commentMap[id].postId]
    {
      if id == c.id {
        assert t.comments[c.postId][n] == c;
      } else {
        var q := s.commentMap[id].postId;
        var k :| 0 <= k < |s.comments[q]| && s.comments[q][k] == s.commentMap[id];
        assert t.comments[q][k] == s.commentMap[id];
      }
    }
  }

  // ---------------------------------------------------------------------
  // Ownership-checked flag update and lookups
  // ---------------------------------------------------------------------

  /** AllowComments: a post that is missing or owned by somebody else reads
      as not found; otherwise only that post's flag changes. */
  function AllowComments(s: Store, authorId: AuthorId, postId: int, allowed: bool): (r: (Store, Result<Post, Error>))
    ensures r.1.Err? <==> postId !in s.posts || s.posts[postId].authorId != authorId
    ensures r.1.Err? ==> r == (s, Err(PostNotFound))
    ensures r.1.Ok? ==>
      && r.1.value == s.posts[postId].(commentsAllowed := allowed)
      && r.0 == s.(posts := s.posts[postId := r.1.value])
    ensures Inv(s) ==> Inv(r.0)
  {
    if postId !in s.posts || s.posts[postId].authorId != authorId then (s, Err(PostNotFound))
    else
      var post := s.posts[postId].(commentsAllowed := allowed);
      (s.(posts := s.posts[postId := post]), Ok(post))
  }

  /** GetPost: the post with that ID, or not found. */
  function GetPost(s: Store, id: int): (r: Result<Post, Error>)
    ensures r.Err? <==> id !in s.posts
    ensures r.Err? ==> r.error == PostNotFound
    ensures Inv(s) && r.Ok? ==> r.value.id == id && r.value in s.posts.Values
  {
    if id in s.posts then Ok(s.posts[id]) else Err(PostNotFound)
  }

  // ---------------------------------------------------------------------
  // Pagination
  // ---------------------------------------------------------------------

  function Min(a: int, b: int): int
  {
    if a <= b then a else b
  }

  /** The slice `s[offset:offset+limit]` is taken only when `offset < |s|`;
      there it is out of range, and panics, unless both are non-negative. */
  predicate PageDefined(n: int, offset: int, limit: int)
  {
    offset < n ==> 0 <= offset && 0 <= limit
  }

  /** An offset at or beyond the end gives an empty page; otherwise the page
      holds the next `limit` elements from `offset`, cut at the end. */
  function Page<T>(s: seq<T>, offset: int, limit: int): (r: seq<T>)
    requires PageDefined(|s|, offset, limit)
    ensures offset >= |s| ==> r == []
    ensures offset < |s| ==> |r| == Min(limit, |s| - offset)
    ensures 0 <= limit ==> |r| <= limit
    ensures forall i | 0 <= i < |r| :: 0 <= offset + i < |s| && r[i] == s[offset + i]
  {
    if offset >= |s| then [] else s[offset..Min(offset + limit, |s|)]
  }

  /** Whatever is on a page of a post's comment list belongs to that post, is
      the stored record and keeps creation order. */
  lemma PostPageFacts(s: Store, postId: int, offset: int, limit: int)
    requires Inv(s)
    requires PageDefined(|CommentsOf(s, postId)|, offset, limit)
    ensures var r := Page(CommentsOf(s, postId), offset, limit);
      && (forall c | c in r :: c.postId == postId && c.id in s.commentMap && s.commentMap[c.id] == c)
      && (forall i, j | 0 <= i < j < |r| :: r[i].id < r[j].id)
  {
    var l := CommentsOf(s, postId);
    var r := Page(l, offset, limit);
    forall c | c in r ensures c.postId == postId && c.id in s.commentMap && s.commentMap[c.id] == c {
      var i :| 0 <= i < |r| && r[i] == c;
      assert l[offset + i] == c;
    }
    forall i, j | 0 <= i < j < |r| ensures r[i].id < r[j].id {
      assert r[i] == l[offset + i] && r[j] == l[offset + j];
    }
  }

  // ---------------------------------------------------------------------
  // Replies
  // ---------------------------------------------------------------------

  /** The IDs of the direct replies to `parentId`, over all posts. */
  ghost function RepliesOf(cm: map<int, Comment>, parentId: int): set<int>
  {
    set id | id in cm && cm[id].parentId == Some(parentId)
  }

  /** `all` lists the stored comments with IDs in `ids`, each exactly once. */
  ghost predicate Enumerates(cm: map<int, Comment>, all: seq<Comment>, ids: set<int>)
  {
    && |all| == |ids|
    && (forall i | 0 <= i < |all| :: all[i].id in ids && all[i].id in cm && cm[all[i].id] == all[i])
    && (forall i, j | 0 <= i < j < |all| :: all[i].id != all[j].id)
  }

  /** An enumeration covers every ID it is about. */
  lemma EnumerationCovers(cm: map<int, Comment>, all: seq<Comment>, ids: set<int>)
    requires Enumerates(cm, all, ids)
    ensures forall id | id in ids :: exists i :: 0 <= i < |all| && all[i].id == id
  {
    var listed := set i | 0 <= i < |all| :: all[i].id;
    DistinctIdsCard(all);
    SameCardSubsetEqual(listed, ids);
  }

  lemma SameCardSubsetEqual(a: set<int>, b: set<int>)
    requires a <= b && |a| == |b|
    ensures a == b
  {
    assert b == a + (b - a);
    assert a * (b - a) == {};
    assert |b - a| == 0;
  }

  /** A list with pairwise distinct IDs has as many IDs as elements. */
  lemma {:induction false} DistinctIdsCard(all: seq<Comment>)
    requires forall i, j | 0 <= i < j < |all| :: all[i].id != all[j].id
    ensures |set i | 0 <= i < |all| :: all[i].id| == |all|
  {
    if all != [] {
      var rest := all[..|all| - 1];
      DistinctIdsCard(rest);
      var front := set i | 0 <= i < |rest| :: rest[i].id;
      var whole := set i | 0 <= i < |all| :: all[i].id;
      assert whole == front + {all[|all| - 1].id};
      assert all[|all| - 1].id !in front;
    }
  }

  /** A non-empty set of keys has a key to pick. */
  lemma NonEmptyHasElement(s: set<int>)
    requires s != {}
    ensures exists x :: x in s
  {
    if forall x :: x !in s {
      assert false;
    }
  }

  // ---------------------------------------------------------------------
  // Depth
  // ---------------------------------------------------------------------

  /** The number of parent edges from `id` up to a comment without a parent;
      an ID that is not stored has depth 0. */
  function Depth(cm: map<int, Comment>, id: int): nat
    requires ParentsPrecede(cm)
    decreases if id in cm then id else 0
  {
    if id !in cm || cm[id].parentId.None? then 0
    else 1 + Depth(cm, cm[id].parentId.value)
  }

  /** A comment's depth is at most its ID: each step up lowers the ID. */
  lemma {:induction false} DepthBelowId(cm: map<int, Comment>, id: int)
    requires ParentsPrecede(cm)
    requires id in cm
    ensures Depth(cm, id) <= id
  {
    if cm[id].parentId.Some? {
      DepthBelowId(cm, cm[id].parentId.value);
    }
  }

  /** `chain` is a reply chain: its first comment has no parent and each
      further one replies to the one before it. */
  ghost predicate ReplyChain(cm: map<int, Comment>, chain: seq<int>)
  {
    && |chain| > 0
    && (forall k | 0 <= k < |chain| :: chain[k] in cm)
    && cm[chain[0]].parentId.None?
    && (forall k | 0 < k < |chain| :: cm[chain[k]].parentId == Some(chain[k - 1]))
  }

  /** The k-th comment of a reply chain has depth k; so the deepest comment of
      an N-long chain has depth N - 1. */
  lemma {:induction false} ChainDepth(cm: map<int, Comment>, chain: seq<int>, k: nat)
    requires ParentsPrecede(cm)
    requires ReplyChain(cm, chain)
    requires k < |chain|
    ensures Depth(cm, chain[k]) == k
  {
    if k > 0 {
      ChainDepth(cm, chain, k - 1);
    }
  }

  /** Storing a new comment leaves the depth of every stored comment as it
      was. */
  lemma {:induction false} DepthUnchangedByInsert(cm: map<int, Comment>, c: Comment, id: int)
    requires ParentsPrecede(cm) && ParentsPrecede(cm[c.id := c])
    requires c.id !in cm
    requires id in cm
    ensures Depth(cm[c.id := c], id) == Depth(cm, id)
    decreases id
  {
    if cm[id].parentId.Some? {
      DepthUnchangedByInsert(cm, c, cm[id].parentId.value);
    }
  }

  /** After a successful CreateComment the new comment is one deeper than
      its parent (or a root at depth 0), and no other depth changes. */
  lemma CreateCommentDepths(s: Store, nc: NewComment, now: Time)
    requires Inv(s)
    ensures var (t, r) := CreateComment(s, nc, now);
      && (forall id | id in s.commentMap :: Depth(t.commentMap, id) == Depth(s.commentMap, id))
      && (r.Ok? ==>
            Depth(t.commentMap, r.value.id) ==
              if nc.parentId.None? then 0 else 1 + Depth(s.commentMap, nc.parentId.value))
  {
    var (t, r) := CreateComment(s, nc, now);
    if r.Ok? {
      forall id | id in s.commentMap ensures Depth(t.commentMap, id) == Depth(s.commentMap, id) {
        DepthUnchangedByInsert(s.commentMap, r.value, id);
      }
      if nc.parentId.Some? {
        DepthUnchangedByInsert(s.commentMap, r.value, nc.parentId.value);
      }
    }
  }
}

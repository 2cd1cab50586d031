/** The records the store keeps and returns: posts and comments, and the input
    shapes they are created from. */
module Models {
  import opened Wrappers

  /** The creation timestamp of a record. The store reads the clock when it
      creates a record; here the reading is an opaque value passed in. */
  datatype Time = Time(nanos: int)

  /** An author identifier, kept as the canonical text of its UUID, which is
      what ownership checks compare. */
  type AuthorId = string

  datatype NewPost = NewPost(
    authorId: AuthorId,
    title: string,
    content: string,
    commentsAllowed: bool)

  datatype Post = Post(
    id: int,
    authorId: AuthorId,
    title: string,
    content: string,
    commentsAllowed: bool,
    createdAt: Time)

  datatype NewComment = NewComment(
    authorId: AuthorId,
    postId: int,
    parentId: Option<int>,
    content: string)

  datatype Comment = Comment(
    id: int,
    authorId: AuthorId,
    postId: int,
    parentId: Option<int>,
    content: string,
    createdAt: Time)
}

/** The values the post service works with: the persisted Post entity, the
    create request, the generic response (the read view of one post), the
    projection from entity to response, and the service's outcomes. */
module PostModel {

  /** A post category. The enumeration's constants are not part of this
      model; a category is identified by its constant's name. */
  datatype Category = Category(name: string)

  /** The persisted entity. `id` and `createdAt` are assigned by the store
      when the post is first saved; timestamps are plain integers. */
  datatype Post = Post(
    id: int,
    author: string,
    title: string,
    createdAt: int,
    text: string,
    category: Category)

  /** The generic response: the six fields of a post as the caller sees them.
      The update response has the same shape and is this type too. */
  datatype Response = Response(
    postId: int,
    author: string,
    title: string,
    createdAt: int,
    text: string,
    category: Category)

  /** The create request: what a client may supply; no id, no timestamp. */
  datatype PostRequest = PostRequest(
    author: string,
    title: string,
    text: string,
    category: Category)

  datatype Option<+T> = None | Some(value: T)

  /** What an operation of the service returns instead of throwing:
      NotFound stands for NotFoundException, RestError for RestException,
      whose message is that of the exception it wraps; `None` is the message
      of an exception that has none. */
  datatype Result<+T> = Ok(value: T) | NotFound(msg: string) | RestError(cause: Option<string>)

  /** Where the body of `createPost`'s try block raised, if it did, with the
      exception's message (`None` when it has none): before the save took
      effect (mapping the request, or the save itself), or after it (mapping
      the saved entity to the response). */
  datatype CreateFailure =
    | NoFailure
    | FailsBeforeSave(message: Option<string>)
    | FailsAfterSave(message: Option<string>)

  /** The message every failed lookup by id carries. */
  const PostNotFound: string := "Post not found!"

  /** The entity-to-response projection (the mapper's entity-to-DTO copy,
      field by field, with the entity's id becoming `postId`). */
  function ToResponse(p: Post): Response
  {
    Response(p.id, p.author, p.title, p.createdAt, p.text, p.category)
  }

  /** The response-to-entity direction, used only to state that the
      projection loses nothing. */
  function ToEntity(r: Response): Post
  {
    Post(r.postId, r.author, r.title, r.createdAt, r.text, r.category)
  }

  /** The projection is a bijection: it copies every field and drops none. */
  lemma ProjectionRoundTrip(p: Post, r: Response)
    ensures ToEntity(ToResponse(p)) == p
    ensures ToResponse(ToEntity(r)) == r
    ensures ToResponse(p) == r <==> p == ToEntity(r)
  {
  }

  /** The entity a create request becomes once the store has given it an id
      and a creation time. */
  function NewPost(req: PostRequest, id: int, createdAt: int): (p: Post)
    ensures ToResponse(p).postId == id && ToResponse(p).createdAt == createdAt
    ensures ToResponse(p).author == req.author && ToResponse(p).title == req.title
    ensures ToResponse(p).text == req.text && ToResponse(p).category == req.category
  {
    Post(id, req.author, req.title, createdAt, req.text, req.category)
  }
}

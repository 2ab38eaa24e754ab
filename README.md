# Post service model

A Dafny model of the service layer of a small blog-post CRUD backend: the
`PostServiceImpl` class, which looks posts up, creates, updates and deletes
them, lists them (all, by author, by category) and picks the three most
recent ones. The repository it delegates to is modelled as an in-memory
store, and the object mapper as explicit conversion functions.

- `post_model.dfy` (module `PostModel`): the `Post` entity, the
  `Response` view with the six fields of `GenericPostResponse`, the create
  request, the `Result` datatype (`Ok` / `NotFound(msg)` / `RestError(cause)`)
  that replaces `NotFoundException` and `RestException`, and the
  entity-to-response projection.
- `post_streams.dfy` (module `PostStreams`): the stream pipelines as
  functions on sequences — `map` to responses, the stable newest-first
  `sorted`, `limit(3)` — and the lemmas about them: the sort is ordered, a
  permutation and stable, and the top-three selection has the promised
  length, order, membership and "nothing newer omitted" properties.
- `post_service.dfy` (module `PostServiceImpl`): class `PostService`
  whose fields are the store — `posts: map<int, Post>` (rows by id),
  `order: seq<int>` (the order `findAll` yields them) and `nextId` (the id
  the store assigns next). `Valid()` says every row is filed under its own
  id, below `nextId`, and `order` lists every row exactly once. The
  queries are functions reading the store; `CreatePost`, `UpdatePost` and
  `DeletePost` are methods with `modifies this` whose postconditions give
  the whole new store in terms of the old one.

Collaborators as parameters and assumptions:

- The creation time the persistence layer stamps is the parameter `now` of
  `CreatePost`; the id is the store's `nextId` counter.
- An exception thrown inside `createPost`'s try block is the parameter
  `failure`: `FailsBeforeSave` (mapping the request, or the save itself:
  nothing is stored) or `FailsAfterSave` (mapping the saved entity to the
  response: the post stays stored, as the service opens no transaction),
  each with the exception's message, `None` for an exception without one.
- The mapper's in-place overwrite in `updatePost` is the parameter
  `overwrite: Post -> Post`; the model only takes it that the entity keeps
  its id.
- The created post is appended at the end of `findAll` order; an update
  keeps a post's place; a delete removes it and keeps the others in order.
- `findPostsByAuthor` / `findPostsByCategory` on the repository are taken to
  be the exact-match filters of `findAll` (`ByAuthor`, `ByCategory`). This is
  an assumption about the derived queries, not something the service checks.

Two points where the model deliberately says less, or more, than is
often assumed of this service. A partial overwrite on update (present
fields replace, absent ones are kept) and an immutable `createdAt` are what
the mapper is meant to deliver, but the code hands both to the mapper,
whose configuration is not part of this model, so neither is claimed. The
order of ties among equal `createdAt` is not fixed by any comparator, but
the code sorts an ordered stream with a stable sort, so ties keep their
`findAll` order, and the model proves that.

## Model

| member | source | states |
|---|---|---|
| PostModel.ProjectionRoundTrip | src/main/java/com/example/postapi/dto/response/GenericPostResponse.java:17-22 | the response carries all six fields of the post: the projection and its inverse undo each other, so a response determines its post |
| PostModel.NewPost | src/main/java/com/example/postapi/service/impl/PostServiceImpl.java:44 | the saved entity's response has the store-assigned id and creation time and the request's author, title, text and category |
| PostStreams.Project | src/main/java/com/example/postapi/service/impl/PostServiceImpl.java:34-38 | mapping a stream of posts gives exactly one response per post, same length, same order, each the projection of the post at that position |
| PostStreams.ByAuthor | src/main/java/com/example/postapi/service/impl/PostServiceImpl.java:71 | the repository's author query (assumed filter) yields exactly the posts of findAll by that author |
| PostStreams.ByCategory | src/main/java/com/example/postapi/service/impl/PostServiceImpl.java:79 | the repository's category query (assumed filter) yields exactly the posts of findAll in that category |
| PostStreams.InsertNewestFirst | src/main/java/com/example/postapi/service/impl/PostServiceImpl.java:90 | one insertion step keeps the sequence ordered most recent first and adds exactly the inserted response |
| PostStreams.SortNewestFirst | src/main/java/com/example/postapi/service/impl/PostServiceImpl.java:90 | the sort by createdAt reversed gives a sequence ordered most recent first that is a permutation of its input |
| PostStreams.InsertKeepsTies | src/main/java/com/example/postapi/service/impl/PostServiceImpl.java:90 | an insertion puts the new response ahead of its ties and leaves every other group of ties unchanged |
| PostStreams.TiesAtIsFilter | src/main/java/com/example/postapi/service/impl/PostServiceImpl.java:90 | the ties at a given time, the groups whose order the sort must keep, hold exactly the elements of the input with that creation time |
| PostStreams.SortIsStable | src/main/java/com/example/postapi/service/impl/PostServiceImpl.java:87-90 | the sort is stable: for every timestamp, the responses created then come out in their input order |
| PostStreams.Limit | src/main/java/com/example/postapi/service/impl/PostServiceImpl.java:91 | limit(n) keeps a prefix of length min(n, input length) |
| PostStreams.PrefixKeepsTiesPrefix | src/main/java/com/example/postapi/service/impl/PostServiceImpl.java:91 | truncating keeps, for every timestamp, a prefix of the responses created then |
| PostStreams.LimitKeepsOrder | src/main/java/com/example/postapi/service/impl/PostServiceImpl.java:91 | truncating a most-recent-first sequence keeps it most recent first |
| PostStreams.LimitDropsOnlyOlder | src/main/java/com/example/postapi/service/impl/PostServiceImpl.java:90-91 | whatever the limit drops from the sorted stream is no newer than the last response kept |
| PostStreams.LastThreeSpec | src/main/java/com/example/postapi/service/impl/PostServiceImpl.java:86-92 | the top-three pipeline yields min(3, n) responses drawn from the input's projections, most recent first, none omitted newer than the last kept, ties in input order |
| PostStreams.SortReversesIncreasing | src/main/java/com/example/postapi/service/impl/PostServiceImpl.java:90 | posts created one after another come out of the sort in reverse order |
| PostStreams.LastThreeOfIncreasing | src/main/java/com/example/postapi/service/impl/PostServiceImpl.java:86-92 | for posts created at strictly increasing times, the result is the last min(3, n) posts, most recent first (T1<T2<T3<T4 gives T4, T3, T2) |
| PostStreams.SortOfIncreasing | src/main/java/com/example/postapi/service/impl/PostServiceImpl.java:87-90 | posts created one after another come out of map and sort in reverse order |
| PostStreams.LastThreeDrawn | src/main/java/com/example/postapi/service/impl/PostServiceImpl.java:87-92 | the top three are a sub-multiset of the projections of findAll |
| PostStreams.LastThreePicksFromInput | src/main/java/com/example/postapi/service/impl/PostServiceImpl.java:87-92 | each response picked is the projection of some post of findAll |
| PostStreams.LastThreeNoDuplicates | src/main/java/com/example/postapi/service/impl/PostServiceImpl.java:87-92 | when findAll's posts have distinct ids, no response is picked twice |
| PostStreams.LastThreeKeepsTies | src/main/java/com/example/postapi/service/impl/PostServiceImpl.java:87-92 | for every timestamp, the responses picked with that timestamp are a prefix of findAll's responses with it |
| PostStreams.LastThreeOmitsOnlyOlder | src/main/java/com/example/postapi/service/impl/PostServiceImpl.java:90-91 | no post of findAll left out of the top three is newer than the last response picked |
| PostStreams.OmittedIsOlder | src/main/java/com/example/postapi/service/impl/PostServiceImpl.java:90-91 | a single post left out of the top three is no newer than the last response picked |
| PostServiceImpl.RemoveId | src/main/java/com/example/postapi/service/impl/PostServiceImpl.java:63 | deleting removes exactly that id from the findAll order and keeps the order free of repeats |
| PostServiceImpl.Overwritten | src/main/java/com/example/postapi/service/impl/PostServiceImpl.java:55 | the mapper's overwrite of the fetched entity keeps its id |
| PostServiceImpl.PostService.RepoFindAll | src/main/java/com/example/postapi/service/impl/PostServiceImpl.java:35 | the repository's findAll yields every stored post once, in store order, each filed under its id |
| PostServiceImpl.PostService.FindPostById | src/main/java/com/example/postapi/service/impl/PostServiceImpl.java:28-31 | Ok exactly when the id is stored, then the projection of the stored post; otherwise NotFound("Post not found!") |
| PostServiceImpl.PostService.FindAll | src/main/java/com/example/postapi/service/impl/PostServiceImpl.java:34-38 | one response per post of findAll, same length and order; every stored post appears and every response is that of a stored post |
| PostServiceImpl.PostService.FilteredResponses | src/main/java/com/example/postapi/service/impl/PostServiceImpl.java:69-83 | mapping a filtered findAll gives the responses of exactly the stored posts the filter accepts |
| PostServiceImpl.PostService.FindPostsByAuthor | src/main/java/com/example/postapi/service/impl/PostServiceImpl.java:69-75 | one response per post of the repository's result in its order; under the filter assumption, exactly the stored posts by that author |
| PostServiceImpl.PostService.FindPostsByCategory | src/main/java/com/example/postapi/service/impl/PostServiceImpl.java:78-83 | one response per post of the repository's result in its order; under the filter assumption, exactly the stored posts of that category |
| PostServiceImpl.PostService.GetLastThreePost | src/main/java/com/example/postapi/service/impl/PostServiceImpl.java:86-92 | min(3, number of stored posts) responses of distinct stored posts, most recent first, no stored post left out newer than the last, ties in findAll order |
| PostServiceImpl.PostService.LastThreePicksStored | src/main/java/com/example/postapi/service/impl/PostServiceImpl.java:87-92 | each response picked is the projection of a stored post and no post is picked twice |
| PostServiceImpl.PostService.StoreOmitsOnlyOlder | src/main/java/com/example/postapi/service/impl/PostServiceImpl.java:90-91 | no stored post left out of the top three is newer than the last one picked |
| PostServiceImpl.PostService.CreatePost | src/main/java/com/example/postapi/service/impl/PostServiceImpl.java:42-48 | a failure before the save gives RestError with its (possibly absent) message and the store unchanged; otherwise the post is stored under a fresh id and appended to findAll order, and the caller gets its projection, or RestError when the response mapping failed after the save; findPostById then returns the stored post's projection even when the caller was told RestError |
| PostServiceImpl.PostService.UpdatePost | src/main/java/com/example/postapi/service/impl/PostServiceImpl.java:52-57 | NotFound and the store unchanged for a missing id; otherwise only the entry for that id changes, to the overwritten post, and its projection is returned |
| PostServiceImpl.PostService.DeletePost | src/main/java/com/example/postapi/service/impl/PostServiceImpl.java:60-66 | NotFound and the store unchanged for a missing id; otherwise the id is removed, every other entry untouched, the projection from before the removal returned, and findPostById and findAll no longer see it |

## Left out

- PostServiceImpl.PostService.UpdatePost: does not state which fields the update request overwrites or that `createdAt` is kept, because that depends on the mapper's configuration and on `UpdatePostRequest`, which are not part of this model; the overwrite is an arbitrary function that keeps the id.
- PostServiceImpl.PostService.FindPostsByAuthor: the "exactly the posts by this author" part rests on the assumed filter `ByAuthor`; the derived query itself is not part of this model.
- PostServiceImpl.PostService.FindPostsByCategory: likewise rests on the assumed filter `ByCategory`.
- Exceptions the repository or the object mapper throw in `findPostById`, `findAll`, `updatePost`, `deletePost`, the two filtered queries and `getLastThreePost` propagate unchanged in the source; the model has no failing repository or mapper calls outside `createPost`, and its `Result` has no variant for such a propagated exception.
- PostServiceImpl.PostService.DeletePost: does not model the mapping of the removed entity to the response throwing after the delete has happened, where the caller gets the exception while the post is already gone; the contract promises `Ok` whenever the id was stored.
- PostServiceImpl.PostService.UpdatePost: likewise does not model the response mapping throwing after `saveAndFlush` has stored the overwritten post, nor the in-place overwrite throwing before it; the contract promises `Ok` whenever the id was stored.
- Spring wiring (`@Service`, constructor injection), transactions and the flush of `saveAndFlush` have no counterpart: each method is one atomic change to the store.
- Reflection-based field matching by the mapper (how `postId` is filled) is replaced by the explicit projection `ToResponse`.
- `LocalDateTime` is an unbounded integer; a null `createdAt`, which would make the comparator throw, cannot occur.
- The `PostCategory` constants are not part of this model; a category is identified by its name.
- `UpdatePostResponse` is taken to have the same fields as the generic response and is modelled by the same `Response` type.
- The order in which a real database returns `findAll` rows is whatever it is; the model fixes it as insertion order with deleted rows removed.

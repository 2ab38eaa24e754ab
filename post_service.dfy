/** The post service over an in-memory store that stands in for the post
    repository: rows by id, the order in which `findAll` returns them, and
    the next id the store will assign. */
module PostServiceImpl {
  import opened PostModel
  import opened PostStreams

  /** No id occurs twice in `ids`. */
  predicate DistinctIds(ids: seq<int>)
  {
    forall i, j :: 0 <= i < j < |ids| ==> ids[i] != ids[j]
  }

  /** `ids` without `id`, the rest in the same order. */
  function RemoveId(ids: seq<int>, id: int): (r: seq<int>)
    ensures forall x :: x in r <==> x in ids && x != id
    ensures DistinctIds(ids) ==> DistinctIds(r)
  {
    if ids == [] then []
    else
      var tail := RemoveId(ids[1..], id);
      assert DistinctIds(ids) ==> ids[0] !in ids[1..] && DistinctIds(ids[1..]) by {
        if DistinctIds(ids) {
          forall k | 0 <= k < |ids[1..]| ensures ids[1..][k] != ids[0] {
            assert ids[1..][k] == ids[k + 1];
          }
          forall i, j | 0 <= i < j < |ids[1..]| ensures ids[1..][i] != ids[1..][j] {
            assert ids[1..][i] == ids[i + 1] && ids[1..][j] == ids[j + 1];
          }
        }
      }
      if ids[0] == id then tail
      else
        assert DistinctIds(ids) ==> DistinctIds([ids[0]] + tail) by {
          if DistinctIds(ids) {
            forall i, j | 0 <= i < j < |[ids[0]] + tail|
              ensures ([ids[0]] + tail)[i] != ([ids[0]] + tail)[j]
            {
              if i == 0 {
                assert ([ids[0]] + tail)[j] == tail[j - 1];
                assert tail[j - 1] in tail;
              } else {
                assert ([ids[0]] + tail)[i] == tail[i - 1] && ([ids[0]] + tail)[j] == tail[j - 1];
              }
            }
          }
        }
        [ids[0]] + tail
  }

  /** A sequence without repeated ids has as many ids as elements. */
  lemma {:induction false} DistinctIdsCount(ids: seq<int>)
    requires DistinctIds(ids)
    ensures |set x | x in ids| == |ids|
  {
    if ids != [] {
      var tail := ids[1..];
      assert DistinctIds(tail) by {
        forall i, j | 0 <= i < j < |tail| ensures tail[i] != tail[j] {
          assert tail[i] == ids[i + 1] && tail[j] == ids[j + 1];
        }
      }
      DistinctIdsCount(tail);
      assert ids[0] !in tail by {
        forall k | 0 <= k < |tail| ensures tail[k] != ids[0] {
          assert tail[k] == ids[k + 1];
        }
      }
      assert (set x | x in ids) == (set x | x in tail) + {ids[0]} by {
        assert ids == [ids[0]] + tail;
      }
    }
  }

  /** The rows of `m` at the ids `ids`, in that order. */
  function RowsInOrder(m: map<int, Post>, ids: seq<int>): (ps: seq<Post>)
    requires forall i :: 0 <= i < |ids| ==> ids[i] in m
    ensures |ps| == |ids|
    ensures forall i :: 0 <= i < |ids| ==> ps[i] == m[ids[i]]
  {
    if ids == [] then [] else [m[ids[0]]] + RowsInOrder(m, ids[1..])
  }

  /** The mapper's in-place overwrite of a fetched entity: whatever `overwrite`
      makes of the post, the entity keeps its identity. */
  function Overwritten(p: Post, overwrite: Post -> Post): (q: Post)
    ensures q.id == p.id
  {
    overwrite(p).(id := p.id)
  }

  class PostService {
    /** The repository's rows, by id. */
    var posts: map<int, Post>
    /** The ids of the rows in the order the repository's `findAll` yields them. */
    var order: seq<int>
    /** The id the store assigns to the next post it saves. */
    var nextId: int

    /** Every row is filed under its own id, below the next id to assign;
        `order` lists every row exactly once. */
    ghost predicate Valid()
      reads this
    {
      && (forall id :: id in posts ==> posts[id].id == id && id < nextId)
      && (forall i :: 0 <= i < |order| ==> order[i] in posts)
      && (forall id :: id in posts ==> id in order)
      && DistinctIds(order)
    }

    /** An empty store whose first post gets id 1. */
    constructor ()
      ensures Valid()
      ensures posts == map[] && order == [] && nextId == 1
    {
      posts, order, nextId := map[], [], 1;
    }

    /** The repository's `findAll`: every stored post, in `order`. */
    function RepoFindAll(): (ps: seq<Post>)
      reads this
      requires Valid()
      ensures |ps| == |order| == |posts|
      ensures forall i :: 0 <= i < |ps| ==> ps[i] == posts[order[i]] && ps[i].id == order[i]
    {
      var ids := set x | x in order;
      forall x | x in order ensures x in posts {
        var k :| 0 <= k < |order| && order[k] == x;
      }
      assert forall x :: x in ids <==> x in posts;
      assert posts.Keys == ids;
      DistinctIdsCount(order);
      RowsInOrder(posts, order)
    }

    /** A post `findAll` yields is a stored post, filed under its id. */
    lemma FoundIsStored(p: Post)
      requires Valid()
      requires p in RepoFindAll()
      ensures p.id in posts && posts[p.id] == p
    {
      var ps := RepoFindAll();
      var k :| 0 <= k < |ps| && ps[k] == p;
    }

    /** Every stored post is among those `findAll` yields. */
    lemma StoredIsFound(id: int)
      requires Valid()
      requires id in posts
      ensures posts[id] in RepoFindAll()
    {
      var ps := RepoFindAll();
      var k :| 0 <= k < |order| && order[k] == id;
      assert ps[k] == posts[id];
    }

    /** `findPostById`: the projection of the stored post, or NotFound. */
    function FindPostById(id: int): (r: Result<Response>)
      reads this
      ensures r.Ok? <==> id in posts
      ensures id in posts ==> r.value == ToResponse(posts[id])
      ensures id !in posts ==> r == NotFound(PostNotFound)
    {
      if id in posts then Ok(ToResponse(posts[id])) else NotFound(PostNotFound)
    }

    /** `findAll`: one response per stored post, in the repository's order. */
    function FindAll(): (r: seq<Response>)
      reads this
      requires Valid()
      ensures |r| == |RepoFindAll()| == |posts|
      ensures forall i :: 0 <= i < |r| ==> r[i] == ToResponse(RepoFindAll()[i])
      ensures forall id :: id in posts ==> ToResponse(posts[id]) in r
      ensures forall i :: 0 <= i < |r| ==> r[i].postId in posts && r[i] == ToResponse(posts[r[i].postId])
    {
      var ps := RepoFindAll();
      assert forall id :: id in posts ==> ToResponse(posts[id]) in Project(ps) by {
        forall id | id in posts ensures ToResponse(posts[id]) in Project(ps) {
          var k :| 0 <= k < |order| && order[k] == id;
          assert Project(ps)[k] == ToResponse(posts[id]);
        }
      }
      Project(ps)
    }

    /** The responses `findPostsByAuthor`/`findPostsByCategory` build from
        the repository's filtered result: exactly the stored posts `keep`
        accepts. */
    lemma FilteredResponses(keep: Post -> bool)
      requires Valid()
      ensures var r := Project(Filter(RepoFindAll(), keep));
              && (forall i :: 0 <= i < |r| ==>
                    r[i].postId in posts && r[i] == ToResponse(posts[r[i].postId]) &&
                    keep(posts[r[i].postId]))
              && (forall id :: id in posts && keep(posts[id]) ==> ToResponse(posts[id]) in r)
    {
      var q := Filter(RepoFindAll(), keep);
      var r := Project(q);
      forall i | 0 <= i < |r|
        ensures r[i].postId in posts && r[i] == ToResponse(posts[r[i].postId]) && keep(posts[r[i].postId])
      {
        assert q[i] in q;
        FoundIsStored(q[i]);
      }
      forall id | id in posts && keep(posts[id]) ensures ToResponse(posts[id]) in r {
        StoredIsFound(id);
        var k :| 0 <= k < |q| && q[k] == posts[id];
        assert r[k] == ToResponse(posts[id]);
      }
    }

    /** `findPostsByAuthor`: one response per post of the repository's
        result, in its order; that result being taken to be the posts of
        `findAll` by exactly this author, the responses are those of exactly
        the stored posts by `author`. */
    function FindPostsByAuthor(author: string): (r: seq<Response>)
      reads this
      requires Valid()
      ensures |r| == |ByAuthor(RepoFindAll(), author)|
      ensures forall i :: 0 <= i < |r| ==> r[i] == ToResponse(ByAuthor(RepoFindAll(), author)[i])
      ensures forall i :: 0 <= i < |r| ==>
                r[i].author == author && r[i].postId in posts && r[i] == ToResponse(posts[r[i].postId])
      ensures forall id :: id in posts && posts[id].author == author ==> ToResponse(posts[id]) in r
    {
      FilteredResponses((p: Post) => p.author == author);
      Project(ByAuthor(RepoFindAll(), author))
    }

    /** `findPostsByCategory`: as `findPostsByAuthor`, for one category. */
    function FindPostsByCategory(category: Category): (r: seq<Response>)
      reads this
      requires Valid()
      ensures |r| == |ByCategory(RepoFindAll(), category)|
      ensures forall i :: 0 <= i < |r| ==> r[i] == ToResponse(ByCategory(RepoFindAll(), category)[i])
      ensures forall i :: 0 <= i < |r| ==>
                r[i].category == category && r[i].postId in posts && r[i] == ToResponse(posts[r[i].postId])
      ensures forall id :: id in posts && posts[id].category == category ==> ToResponse(posts[id]) in r
    {
      FilteredResponses((p: Post) => p.category == category);
      Project(ByCategory(RepoFindAll(), category))
    }

    /** `getLastThreePost`: the three most recent posts (all of them when
        there are fewer), each a distinct stored post, most recent first,
        none left out that is newer than the last shown, and ties shown in
        `findAll` order, the earliest first. */
    function GetLastThreePost(): (r: seq<Response>)
      reads this
      requires Valid()
      ensures |r| == if |posts| < LastPostsLimit then |posts| else LastPostsLimit
      ensures forall i :: 0 <= i < |r| ==> r[i].postId in posts && r[i] == ToResponse(posts[r[i].postId])
      ensures forall i, j :: 0 <= i < j < |r| ==> r[i].postId != r[j].postId
      ensures NewestFirst(r)
      ensures forall id :: id in posts && ToResponse(posts[id]) !in r ==>
                |r| > 0 && posts[id].createdAt <= r[|r| - 1].createdAt
      ensures forall t :: TiesAt(r, t) <= TiesAt(FindAll(), t)
    {
      var ps := RepoFindAll();
      LimitKeepsOrder(SortNewestFirst(Project(ps)), LastPostsLimit);
      LastThreeKeepsTies(ps);
      LastThreePicksStored();
      StoreOmitsOnlyOlder();
      LastThree(ps)
    }

    /** Each response picked is that of a stored post, and no post is
        picked twice. */
    lemma LastThreePicksStored()
      requires Valid()
      ensures var r := LastThree(RepoFindAll());
              && (forall i :: 0 <= i < |r| ==> r[i].postId in posts && r[i] == ToResponse(posts[r[i].postId]))
              && (forall i, j :: 0 <= i < j < |r| ==> r[i].postId != r[j].postId)
    {
      var ps := RepoFindAll();
      var r := LastThree(ps);
      forall i | 0 <= i < |r| ensures r[i].postId in posts && r[i] == ToResponse(posts[r[i].postId]) {
        LastThreePicksFromInput(ps, i);
      }
      LastThreeNoDuplicates(ps);
    }

    /** No stored post left out of the top three is newer than the last one
        picked. */
    lemma StoreOmitsOnlyOlder()
      requires Valid()
      ensures var r := LastThree(RepoFindAll());
              forall id :: id in posts && ToResponse(posts[id]) !in r ==>
                |r| > 0 && posts[id].createdAt <= r[|r| - 1].createdAt
    {
      var ps := RepoFindAll();
      forall id | id in posts && ToResponse(posts[id]) !in LastThree(ps)
        ensures |LastThree(ps)| > 0 && posts[id].createdAt <= LastThree(ps)[|LastThree(ps)| - 1].createdAt
      {
        var k :| 0 <= k < |order| && order[k] == id;
        assert ps[k] == posts[id];
        OmittedIsOlder(ps, k);
      }
    }

    /** `createPost`: the store assigns the next id and the creation time
        `now` and saves the post. `failure` says whether and where the try
        block raised: before the save nothing is stored; after it (the
        response mapping) the post stays stored, since the service runs no
        transaction of its own. Either way the caller gets a RestError with
        the exception's message. */
    method CreatePost(req: PostRequest, now: int, failure: CreateFailure) returns (r: Result<Response>)
      requires Valid()
      modifies this
      ensures Valid()
      ensures failure.FailsBeforeSave? ==>
                r == RestError(failure.message) &&
                posts == old(posts) && order == old(order) && nextId == old(nextId)
      ensures !failure.FailsBeforeSave? ==>
                var p := NewPost(req, old(nextId), now);
                && old(nextId) !in old(posts)
                && posts == old(posts)[old(nextId) := p]
                && order == old(order) + [old(nextId)]
                && nextId == old(nextId) + 1
                && r == (if failure.NoFailure? then Ok(ToResponse(p)) else RestError(failure.message))
      ensures r.Ok? ==> FindPostById(r.value.postId) == r
      ensures !failure.FailsBeforeSave? ==>
                FindPostById(old(nextId)) == Ok(ToResponse(NewPost(req, old(nextId), now)))
    {
      if failure.FailsBeforeSave? {
        return RestError(failure.message);
      }
      var p := NewPost(req, nextId, now);
      assert nextId !in order;
      posts := posts[nextId := p];
      order := order + [nextId];
      nextId := nextId + 1;
      if failure.FailsAfterSave? {
        return RestError(failure.message);
      }
      r := Ok(ToResponse(p));
    }

    /** `updatePost`: NotFound with nothing changed when no post has this id;
        otherwise the fetched post is overwritten by the mapper, saved back
        under its id, and its new projection returned. */
    method UpdatePost(id: int, overwrite: Post -> Post) returns (r: Result<Response>)
      requires Valid()
      modifies this
      ensures Valid()
      ensures id !in old(posts) ==>
                r == NotFound(PostNotFound) &&
                posts == old(posts) && order == old(order) && nextId == old(nextId)
      ensures id in old(posts) ==>
                var p := Overwritten(old(posts)[id], overwrite);
                && r == Ok(ToResponse(p))
                && posts == old(posts)[id := p]
                && order == old(order) && nextId == old(nextId)
      ensures r.Ok? ==> FindPostById(id) == r
    {
      if id !in posts {
        return NotFound(PostNotFound);
      }
      var p := Overwritten(posts[id], overwrite);
      posts := posts[id := p];
      r := Ok(ToResponse(p));
    }

    /** `deletePost`: NotFound with nothing changed when no post has this id;
        otherwise the post is removed and its projection as it was before
        the removal is returned. */
    method DeletePost(id: int) returns (r: Result<Response>)
      requires Valid()
      modifies this
      ensures Valid()
      ensures id !in old(posts) ==>
                r == NotFound(PostNotFound) &&
                posts == old(posts) && order == old(order) && nextId == old(nextId)
      ensures id in old(posts) ==>
                && r == Ok(ToResponse(old(posts)[id]))
                && posts == old(posts) - {id}
                && order == RemoveId(old(order), id)
                && nextId == old(nextId)
      ensures FindPostById(id) == NotFound(PostNotFound)
      ensures forall x :: x in FindAll() ==> x.postId != id
    {
      if id !in posts {
        return NotFound(PostNotFound);
      }
      r := Ok(ToResponse(posts[id]));
      posts := posts - {id};
      order := RemoveId(order, id);
      assert forall i :: 0 <= i < |order| ==> order[i] in order;
    }
  }
}

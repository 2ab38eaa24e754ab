/** The stream pipelines of the post service, as functions on sequences:
    mapping every post to its response, the repository's derived filters,
    the stable newest-first sort and the limit that `getLastThreePost`
    applies. */
module PostStreams {
  import opened PostModel

  /** How many posts `getLastThreePost` keeps. */
  const LastPostsLimit: nat := 3

  /** Mapping a stream of posts to responses and collecting it: one
      response per post, in the same order. */
  function Project(ps: seq<Post>): (rs: seq<Response>)
    ensures |rs| == |ps|
    ensures forall i :: 0 <= i < |ps| ==> rs[i] == ToResponse(ps[i])
  {
    if ps == [] then [] else [ToResponse(ps[0])] + Project(ps[1..])
  }

  /** The posts of `ps` that `keep` accepts, in their order in `ps`. */
  function Filter(ps: seq<Post>, keep: Post -> bool): (r: seq<Post>)
    ensures |r| <= |ps|
    ensures forall x :: x in r <==> x in ps && keep(x)
  {
    if ps == [] then []
    else (if keep(ps[0]) then [ps[0]] else []) + Filter(ps[1..], keep)
  }

  /** The repository's `findPostsByAuthor`, taken to be the exact-match
      filter of `findAll` (an assumption about the derived query). */
  function ByAuthor(ps: seq<Post>, author: string): (r: seq<Post>)
    ensures forall x :: x in r <==> x in ps && x.author == author
  {
    Filter(ps, (p: Post) => p.author == author)
  }

  /** The repository's `findPostsByCategory`, under the same assumption. */
  function ByCategory(ps: seq<Post>, category: Category): (r: seq<Post>)
    ensures forall x :: x in r <==> x in ps && x.category == category
  {
    Filter(ps, (p: Post) => p.category == category)
  }

  /** Ordered by creation time, most recent first (ties allowed). */
  predicate NewestFirst(rs: seq<Response>)
  {
    forall i, j :: 0 <= i < j < |rs| ==> rs[i].createdAt >= rs[j].createdAt
  }

  /** Inserts `x` into a newest-first sequence in front of the first element
      that is not newer than `x`, so that `x` precedes its ties. */
  function InsertNewestFirst(x: Response, rs: seq<Response>): (r: seq<Response>)
    requires NewestFirst(rs)
    ensures NewestFirst(r)
    ensures |r| == |rs| + 1
    ensures multiset(r) == multiset(rs) + multiset{x}
    ensures r[0] == x || (rs != [] && r[0] == rs[0])
  {
    if rs == [] || rs[0].createdAt <= x.createdAt then
      ConsNewestFirst(x, rs);
      [x] + rs
    else
      assert rs == [rs[0]] + rs[1..];
      var tail := InsertNewestFirst(x, rs[1..]);
      ConsNewestFirst(rs[0], tail);
      [rs[0]] + tail
  }

  /** A newest-first sequence stays so when an element no older than its
      head is put in front. */
  lemma {:induction false} ConsNewestFirst(h: Response, rs: seq<Response>)
    requires NewestFirst(rs)
    requires rs != [] ==> h.createdAt >= rs[0].createdAt
    ensures NewestFirst([h] + rs)
  {
    var r := [h] + rs;
    forall i, j | 0 <= i < j < |r| ensures r[i].createdAt >= r[j].createdAt {
      if i > 0 {
        assert r[i] == rs[i - 1] && r[j] == rs[j - 1];
      } else {
        assert r[j] == rs[j - 1];
      }
    }
  }

  /** Sorting by creation time in reverse: a stable sort, most recent
      first. */
  function SortNewestFirst(rs: seq<Response>): (r: seq<Response>)
    ensures NewestFirst(r)
    ensures |r| == |rs|
    ensures multiset(r) == multiset(rs)
  {
    if rs == [] then []
    else
      assert rs == [rs[0]] + rs[1..];
      InsertNewestFirst(rs[0], SortNewestFirst(rs[1..]))
  }

  /** Limiting a stream to `n`: the first `n` elements, or all of them when there are fewer. */
  function Limit(rs: seq<Response>, n: nat): (r: seq<Response>)
    ensures |r| == if |rs| < n then |rs| else n
    ensures r <= rs
  {
    if |rs| <= n then rs else rs[..n]
  }

  /** The whole `getLastThreePost` pipeline over the repository's `findAll`. */
  function LastThree(ps: seq<Post>): seq<Response>
  {
    Limit(SortNewestFirst(Project(ps)), LastPostsLimit)
  }

  /** The elements of `rs` created at time `t`, in their order in `rs`: the
      order among ties that a stable sort must keep. */
  function TiesAt(rs: seq<Response>, t: int): (r: seq<Response>)
    ensures forall i :: 0 <= i < |r| ==> r[i].createdAt == t
  {
    if rs == [] then []
    else (if rs[0].createdAt == t then [rs[0]] else []) + TiesAt(rs[1..], t)
  }

  /** The ties at `t` are the filter of `rs` by creation time `t`: they hold
      exactly the elements of `rs` created then. */
  lemma {:induction false} TiesAtIsFilter(rs: seq<Response>, t: int)
    ensures forall x :: x in TiesAt(rs, t) <==> x in rs && x.createdAt == t
  {
    if rs != [] {
      TiesAtIsFilter(rs[1..], t);
      assert rs == [rs[0]] + rs[1..];
    }
  }

  /** No two positions of `s` hold the same element. */
  predicate NoDuplicates<T(==)>(s: seq<T>)
  {
    forall i, j :: 0 <= i < j < |s| ==> s[i] != s[j]
  }

  // ----- stability -----

  /** Inserting `x` puts it ahead of every element created at the same time
      and leaves the ties of every other time as they were. */
  lemma {:induction false} InsertKeepsTies(x: Response, rs: seq<Response>, t: int)
    requires NewestFirst(rs)
    ensures TiesAt(InsertNewestFirst(x, rs), t)
            == if x.createdAt == t then [x] + TiesAt(rs, t) else TiesAt(rs, t)
  {
    if rs == [] || rs[0].createdAt <= x.createdAt {
      CreatedAtCons(x, rs, t);
    } else {
      assert rs == [rs[0]] + rs[1..];
      InsertKeepsTies(x, rs[1..], t);
      CreatedAtCons(rs[0], InsertNewestFirst(x, rs[1..]), t);
      CreatedAtCons(rs[0], rs[1..], t);
    }
  }

  /** The ties of a sequence with one element in front. */
  lemma CreatedAtCons(h: Response, rs: seq<Response>, t: int)
    ensures TiesAt([h] + rs, t) == (if h.createdAt == t then [h] else []) + TiesAt(rs, t)
  {
    assert ([h] + rs)[1..] == rs;
  }

  /** The sort is stable: for every creation time, the posts created at that
      time come out in the order they went in. */
  lemma {:induction false} SortIsStable(rs: seq<Response>, t: int)
    ensures TiesAt(SortNewestFirst(rs), t) == TiesAt(rs, t)
  {
    if rs != [] {
      SortIsStable(rs[1..], t);
      InsertKeepsTies(rs[0], SortNewestFirst(rs[1..]), t);
    }
  }

  /** Keeping a prefix keeps a prefix of every group of ties. */
  lemma {:induction false} PrefixKeepsTiesPrefix(r: seq<Response>, s: seq<Response>, t: int)
    requires r <= s
    ensures TiesAt(r, t) <= TiesAt(s, t)
  {
    if r != [] {
      assert r[1..] <= s[1..];
      PrefixKeepsTiesPrefix(r[1..], s[1..], t);
    }
  }

  // ----- duplicates -----

  /** A sequence with two equal positions holds that element at least twice. */
  lemma {:induction false} RepeatedCountsTwice<T>(s: seq<T>, i: nat, j: nat)
    requires i < j < |s| && s[i] == s[j]
    ensures multiset(s)[s[i]] >= 2
  {
    if i > 0 {
      RepeatedCountsTwice(s[1..], i - 1, j - 1);
      assert s == [s[0]] + s[1..];
    } else {
      assert s[j] in s[1..];
      assert s == [s[0]] + s[1..];
    }
  }

  /** In a sequence without duplicates every element occurs at most once. */
  lemma {:induction false} NoDuplicatesCountsOnce<T>(s: seq<T>, x: T)
    requires NoDuplicates(s)
    ensures multiset(s)[x] <= 1
  {
    if s != [] {
      assert s == [s[0]] + s[1..];
      assert NoDuplicates(s[1..]) by {
        forall i, j | 0 <= i < j < |s[1..]| ensures s[1..][i] != s[1..][j] {
          assert s[1..][i] == s[i + 1] && s[1..][j] == s[j + 1];
        }
      }
      NoDuplicatesCountsOnce(s[1..], x);
      if s[0] == x {
        assert x !in s[1..] by {
          forall k | 0 <= k < |s[1..]| ensures s[1..][k] != x {
            assert s[1..][k] == s[k + 1];
          }
        }
      }
    }
  }

  /** A sub-multiset of a sequence without duplicates has none either. */
  lemma {:induction false} SubMultisetNoDuplicates<T>(a: seq<T>, b: seq<T>)
    requires NoDuplicates(b) && multiset(a) <= multiset(b)
    ensures NoDuplicates(a)
  {
    forall i, j | 0 <= i < j < |a| ensures a[i] != a[j] {
      if a[i] == a[j] {
        RepeatedCountsTwice(a, i, j);
        NoDuplicatesCountsOnce(b, a[i]);
        assert false;
      }
    }
  }

  /** Posts with pairwise different ids project to pairwise different
      responses. */
  lemma {:induction false} DistinctIdsNoDuplicates(ps: seq<Post>)
    requires forall i, j :: 0 <= i < j < |ps| ==> ps[i].id != ps[j].id
    ensures NoDuplicates(Project(ps))
  {
  }

  // ----- the top-three selection -----

  /** A prefix of a newest-first sequence is newest-first. */
  lemma {:induction false} LimitKeepsOrder(s: seq<Response>, n: nat)
    requires NewestFirst(s)
    ensures NewestFirst(Limit(s, n))
  {
    var r := Limit(s, n);
    forall i, j | 0 <= i < j < |r| ensures r[i].createdAt >= r[j].createdAt {
      assert r[i] == s[i] && r[j] == s[j];
    }
  }

  /** What the limit drops from a newest-first sequence is no newer than
      the last element it keeps. */
  lemma {:induction false} LimitDropsOnlyOlder(s: seq<Response>, n: nat, x: Response)
    requires NewestFirst(s) && n > 0
    requires x in s && x !in Limit(s, n)
    ensures |Limit(s, n)| > 0 && x.createdAt <= Limit(s, n)[|Limit(s, n)| - 1].createdAt
  {
    var r := Limit(s, n);
    var k :| 0 <= k < |s| && s[k] == x;
    assert k >= |r|;
    assert s[|r| - 1] == r[|r| - 1];
  }

  /** What `getLastThreePost` promises about the posts `ps` that `findAll`
      returns: as many responses as there are posts, up to three; each the
      response of a post of `ps`, no response more often than its post
      occurs; most recent first; no post left out that is newer than the
      last one shown; and among posts created at the same moment the ones
      shown are the first ones in `findAll` order. */
  lemma {:induction false} LastThreeSpec(ps: seq<Post>)
    ensures |LastThree(ps)| == if |ps| < LastPostsLimit then |ps| else LastPostsLimit
    ensures multiset(LastThree(ps)) <= multiset(Project(ps))
    ensures NewestFirst(LastThree(ps))
    ensures forall i :: 0 <= i < |ps| && ToResponse(ps[i]) !in LastThree(ps) ==>
              |LastThree(ps)| > 0 && ps[i].createdAt <= LastThree(ps)[|LastThree(ps)| - 1].createdAt
    ensures forall t :: TiesAt(LastThree(ps), t) <= TiesAt(Project(ps), t)
  {
    LastThreeDrawn(ps);
    LimitKeepsOrder(SortNewestFirst(Project(ps)), LastPostsLimit);
    LastThreeOmitsOnlyOlder(ps);
    LastThreeKeepsTies(ps);
  }

  /** The top three are drawn from the input's projections. */
  lemma {:induction false} LastThreeDrawn(ps: seq<Post>)
    ensures multiset(LastThree(ps)) <= multiset(Project(ps))
  {
    var s := SortNewestFirst(Project(ps));
    var r := Limit(s, LastPostsLimit);
    assert s == r + s[|r|..];
  }

  /** Each of the top three is the projection of a post of the input. */
  lemma {:induction false} LastThreePicksFromInput(ps: seq<Post>, i: nat)
    requires i < |LastThree(ps)|
    ensures exists k :: 0 <= k < |ps| && LastThree(ps)[i] == ToResponse(ps[k])
  {
    LastThreeDrawn(ps);
    var x := LastThree(ps)[i];
    assert x in multiset(LastThree(ps));
    assert x in Project(ps);
    var k :| 0 <= k < |ps| && Project(ps)[k] == x;
  }

  /** Posts with pairwise different ids give top three without repeats. */
  lemma {:induction false} LastThreeNoDuplicates(ps: seq<Post>)
    requires forall i, j :: 0 <= i < j < |ps| ==> ps[i].id != ps[j].id
    ensures NoDuplicates(LastThree(ps))
  {
    LastThreeDrawn(ps);
    DistinctIdsNoDuplicates(ps);
    SubMultisetNoDuplicates(LastThree(ps), Project(ps));
  }

  /** Among posts created at the same moment, the ones shown are the first
      ones in input order. */
  lemma {:induction false} LastThreeKeepsTies(ps: seq<Post>)
    ensures forall t :: TiesAt(LastThree(ps), t) <= TiesAt(Project(ps), t)
  {
    var s := SortNewestFirst(Project(ps));
    forall t ensures TiesAt(LastThree(ps), t) <= TiesAt(Project(ps), t) {
      PrefixKeepsTiesPrefix(LastThree(ps), s, t);
      SortIsStable(Project(ps), t);
    }
  }

  /** No post of `ps` that the top-three selection leaves out is newer than
      the last response it keeps. */
  lemma {:induction false} LastThreeOmitsOnlyOlder(ps: seq<Post>)
    ensures forall i :: 0 <= i < |ps| && ToResponse(ps[i]) !in LastThree(ps) ==>
              |LastThree(ps)| > 0 && ps[i].createdAt <= LastThree(ps)[|LastThree(ps)| - 1].createdAt
  {
    forall i | 0 <= i < |ps| && ToResponse(ps[i]) !in LastThree(ps)
      ensures |LastThree(ps)| > 0 && ps[i].createdAt <= LastThree(ps)[|LastThree(ps)| - 1].createdAt
    {
      OmittedIsOlder(ps, i);
    }
  }

  /** One post left out of the top three is no newer than the last kept. */
  lemma {:induction false} OmittedIsOlder(ps: seq<Post>, i: nat)
    requires i < |ps| && ToResponse(ps[i]) !in LastThree(ps)
    ensures |LastThree(ps)| > 0 && ps[i].createdAt <= LastThree(ps)[|LastThree(ps)| - 1].createdAt
  {
    var s := SortNewestFirst(Project(ps));
    var x := ToResponse(ps[i]);
    assert Project(ps)[i] == x;
    assert x in multiset(Project(ps));
    assert x in s;
    LimitDropsOnlyOlder(s, LastPostsLimit, x);
  }

  /** The scenario of posts created one after another: the most recent
      ones come back, newest first. */
  lemma {:induction false} LastThreeOfIncreasing(ps: seq<Post>)
    requires forall i, j :: 0 <= i < j < |ps| ==> ps[i].createdAt < ps[j].createdAt
    ensures |LastThree(ps)| == if |ps| < LastPostsLimit then |ps| else LastPostsLimit
    ensures forall k :: 0 <= k < |LastThree(ps)| ==> LastThree(ps)[k] == ToResponse(ps[|ps| - 1 - k])
  {
    SortOfIncreasing(ps);
    var s := SortNewestFirst(Project(ps));
    var r := Limit(s, LastPostsLimit);
    forall k | 0 <= k < |r| ensures r[k] == ToResponse(ps[|ps| - 1 - k]) {
      assert r[k] == s[k];
    }
  }

  /** Posts created one after another come out of map and sort in reverse. */
  lemma {:induction false} SortOfIncreasing(ps: seq<Post>)
    requires forall i, j :: 0 <= i < j < |ps| ==> ps[i].createdAt < ps[j].createdAt
    ensures |SortNewestFirst(Project(ps))| == |ps|
    ensures forall k :: 0 <= k < |ps| ==> SortNewestFirst(Project(ps))[k] == ToResponse(ps[|ps| - 1 - k])
  {
    var rs := Project(ps);
    ProjectKeepsIncreasing(ps);
    SortReversesIncreasing(rs);
  }

  /** Projecting keeps creation times strictly increasing. */
  lemma {:induction false} ProjectKeepsIncreasing(ps: seq<Post>)
    requires forall i, j :: 0 <= i < j < |ps| ==> ps[i].createdAt < ps[j].createdAt
    ensures forall i, j :: 0 <= i < j < |Project(ps)| ==> Project(ps)[i].createdAt < Project(ps)[j].createdAt
  {
    var rs := Project(ps);
    forall i, j | 0 <= i < j < |rs| ensures rs[i].createdAt < rs[j].createdAt {
      assert rs[i] == ToResponse(ps[i]) && rs[j] == ToResponse(ps[j]);
    }
  }

  /** Sorting a sequence of strictly increasing creation times reverses it. */
  lemma {:induction false} SortReversesIncreasing(rs: seq<Response>)
    requires forall i, j :: 0 <= i < j < |rs| ==> rs[i].createdAt < rs[j].createdAt
    ensures |SortNewestFirst(rs)| == |rs|
    ensures forall k :: 0 <= k < |rs| ==> SortNewestFirst(rs)[k] == rs[|rs| - 1 - k]
  {
    if rs != [] {
      var tail := rs[1..];
      SortReversesIncreasing(tail);
      var st := SortNewestFirst(tail);
      assert multiset(st) == multiset(tail);
      InsertAtEnd(rs[0], st);
    }
  }

  /** Inserting an element older than everything puts it last. */
  lemma {:induction false} InsertAtEnd(x: Response, rs: seq<Response>)
    requires NewestFirst(rs)
    requires forall k :: 0 <= k < |rs| ==> rs[k].createdAt > x.createdAt
    ensures InsertNewestFirst(x, rs) == rs + [x]
  {
    if rs != [] {
      InsertAtEnd(x, rs[1..]);
      assert rs == [rs[0]] + rs[1..];
    }
  }
}

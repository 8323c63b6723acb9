/**
 * The post resolvers of src/resolvers/post.ts. The `posts` query reads a
 * page through SQL: keep the posts older than the cursor, order them newest
 * first, keep `queryLimit` rows. Here that is a filter, an insertion sort by
 * `createdAt` and a prefix. The resolver then cuts the page with
 * JavaScript's `slice(0, realLimit)` and sets `hasMore` from the over-fetch.
 * Timestamps are integers.
 */
module PostResolver {
  import opened Wrappers
  import VideoResolver

  /** A row of the `post` table. */
  datatype Post = Post(id: int, title: string, slug: string, createdAt: int)

  /** `PostInput` */
  datatype PostInput = PostInput(slug: string, title: string)

  /** `PaginatedPosts` */
  datatype PaginatedPosts = PaginatedPosts(posts: seq<Post>, hasMore: bool)

  /** The largest page the resolver hands out. */
  const MaxPage := 10

  function Min(a: int, b: int): int {
    if a <= b then a else b
  }

  function Max(a: int, b: int): int {
    if a >= b then a else b
  }

  // ---------------------------------------------------------------------
  // The query
  // ---------------------------------------------------------------------

  /** `where p."createdAt" < t`, keeping table order. */
  function Before(rows: seq<Post>, t: int): (r: seq<Post>)
    ensures |r| <= |rows|
  {
    if rows == [] then []
    else (if rows[0].createdAt < t then [rows[0]] else []) + Before(rows[1..], t)
  }

  /** The filter keeps each older row as often as it is stored, and drops the others. */
  lemma {:induction false} BeforeExact(rows: seq<Post>, t: int, p: Post)
    ensures multiset(Before(rows, t))[p] == if p.createdAt < t then multiset(rows)[p] else 0
  {
    if rows != [] {
      assert rows == [rows[0]] + rows[1..];
      BeforeExact(rows[1..], t, p);
    }
  }

  /** The rows the query considers: all of them without a cursor. */
  function Candidates(rows: seq<Post>, cursor: Option<int>): (r: seq<Post>)
    ensures forall p :: p in r <==> p in rows && (cursor.Some? ==> p.createdAt < cursor.value)
  {
    assert cursor.Some? ==> forall p :: p in Before(rows, cursor.value) <==> p in rows && p.createdAt < cursor.value by {
      if cursor.Some? {
        forall p ensures p in Before(rows, cursor.value) <==> p in rows && p.createdAt < cursor.value {
          BeforeExact(rows, cursor.value, p);
        }
      }
    }
    match cursor
    case None => rows
    case Some(t) => Before(rows, t)
  }

  ghost predicate NewestFirstOrder(s: seq<Post>) {
    forall i, j :: 0 <= i < j < |s| ==> s[i].createdAt >= s[j].createdAt
  }

  /** Puts `p` in front of the first post that is not newer than it. */
  function InsertByDate(p: Post, s: seq<Post>): (r: seq<Post>)
    ensures multiset(r) == multiset(s) + multiset{p}
  {
    if s == [] then [p]
    else if p.createdAt >= s[0].createdAt then [p] + s
    else
      assert s == [s[0]] + s[1..];
      [s[0]] + InsertByDate(p, s[1..])
  }

  /** `order by p."createdAt" DESC` */
  function NewestFirst(s: seq<Post>): (r: seq<Post>)
    ensures multiset(r) == multiset(s)
  {
    if s == [] then []
    else
      assert s == [s[0]] + s[1..];
      InsertByDate(s[0], NewestFirst(s[1..]))
  }

  /** `limit n` */
  function Take(s: seq<Post>, n: nat): (r: seq<Post>)
    ensures |r| == Min(n, |s|) && r == s[..|r|]
  {
    if n <= |s| then s[..n] else s
  }

  /**
   * JavaScript's `s.slice(0, end)`: a negative end counts back from the
   * length, and both ends are clamped to the sequence.
   */
  function SliceTo(s: seq<Post>, end: int): (r: seq<Post>)
    ensures end >= 0 ==> |r| == Min(end, |s|)
    ensures end < 0 ==> |r| == Max(0, |s| + end)
    ensures r == s[..|r|]
  {
    if end >= 0 then s[..Min(end, |s|)] else s[..Max(0, |s| + end)]
  }

  /** The rows the SQL statement returns. */
  function Fetch(rows: seq<Post>, cursor: Option<int>, queryLimit: nat): (r: seq<Post>)
    ensures |r| <= queryLimit
    ensures forall p :: p in r ==> p in rows && (cursor.Some? ==> p.createdAt < cursor.value)
  {
    var sorted := NewestFirst(Candidates(rows, cursor));
    assert forall p :: p in sorted ==> p in Candidates(rows, cursor) by {
      forall p | p in sorted ensures p in Candidates(rows, cursor) {
        assert multiset(sorted)[p] > 0;
      }
    }
    Take(sorted, queryLimit)
  }

  /**
   * `posts(limit, cursor)`. A limit below -1 makes the SQL limit negative,
   * which the database refuses: there is no page then.
   */
  function Posts(rows: seq<Post>, limit: int, cursor: Option<int>): (r: Option<PaginatedPosts>)
    ensures r.None? <==> limit < -1
    ensures r.Some? ==> |r.value.posts| <= Max(0, Min(MaxPage, limit))
  {
    var realLimit := Min(MaxPage, limit);
    var queryLimit := realLimit + 1;
    if queryLimit < 0 then None
    else
      var fetched := Fetch(rows, cursor, queryLimit);
      Some(PaginatedPosts(SliceTo(fetched, realLimit), |fetched| == queryLimit))
  }

  // ---------------------------------------------------------------------
  // Single post, videos of a post
  // ---------------------------------------------------------------------

  /** `post(slug)`: `findOne({ where: { slug } })`, the first post with that slug. */
  function PostBySlug(rows: seq<Post>, slug: string): (r: Option<Post>)
    ensures r.None? <==> forall i :: 0 <= i < |rows| ==> rows[i].slug != slug
    ensures r.Some? ==> exists i :: 0 <= i < |rows| && rows[i] == r.value && r.value.slug == slug
                                    && forall k :: 0 <= k < i ==> rows[k].slug != slug
  {
    if rows == [] then None
    else if rows[0].slug == slug then Some(rows[0])
    else
      var r := PostBySlug(rows[1..], slug);
      if r.Some? then
        var i :| 0 <= i < |rows[1..]| && rows[1..][i] == r.value && r.value.slug == slug
                 && forall k :: 0 <= k < i ==> rows[1..][k].slug != slug;
        assert rows[i + 1] == r.value && forall k :: 0 <= k < i + 1 ==> rows[k].slug != slug;
        r
      else r
  }

  /** The `videos` field of a post: the videos whose slug is the post's. */
  function PostVideos(post: Post, videos: seq<VideoResolver.Video>): (r: seq<VideoResolver.Video>)
    ensures |r| <= |videos|
    ensures forall v :: v in r <==> v in videos && v.parameters.slug == post.slug
  {
    VideoResolver.WithSlug(videos, post.slug)
  }

  /** Each video of the post's slug is listed as often as it is stored; no other video is. */
  lemma {:induction false} PostVideosExact(post: Post, videos: seq<VideoResolver.Video>, v: VideoResolver.Video)
    ensures multiset(PostVideos(post, videos))[v] ==
              if v.parameters.slug == post.slug then multiset(videos)[v] else 0
  {
    VideoResolver.WithSlugExact(videos, post.slug, v);
  }

  // ---------------------------------------------------------------------
  // The table
  // ---------------------------------------------------------------------

  class PostTable {
    var rows: seq<Post>
    var nextId: int

    ghost predicate Valid()
      reads this
    {
      nextId >= 1
      && (forall i :: 0 <= i < |rows| ==> 1 <= rows[i].id < nextId)
      && (forall i, j :: 0 <= i < j < |rows| ==> rows[i].id != rows[j].id)
    }

    constructor ()
      ensures Valid() && rows == [] && nextId == 1
    {
      rows := [];
      nextId := 1;
    }

    /**
     * `createPost`: a post with the input's slug and title, the next id and
     * the database clock's `now` as its creation time.
     */
    method CreatePost(input: PostInput, now: int) returns (p: Post)
      requires Valid()
      modifies this
      ensures Valid()
      ensures p == Post(old(nextId), input.title, input.slug, now)
      ensures forall i :: 0 <= i < |old(rows)| ==> old(rows)[i].id != p.id
      ensures rows == old(rows) + [p] && nextId == old(nextId) + 1
    {
      p := Post(nextId, input.title, input.slug, now);
      rows := rows + [p];
      nextId := nextId + 1;
    }
  }

  /** A created post is what `post(slug)` finds, unless an earlier row has the same slug. */
  lemma {:induction false} CreatedPostFound(rows: seq<Post>, p: Post)
    ensures PostBySlug(rows + [p], p.slug).Some?
    ensures (forall i :: 0 <= i < |rows| ==> rows[i].slug != p.slug) ==> PostBySlug(rows + [p], p.slug) == Some(p)
  {
    var s := rows + [p];
    assert s[|rows|] == p;
    if forall i :: 0 <= i < |rows| ==> rows[i].slug != p.slug {
      var r := PostBySlug(s, p.slug);
      var i :| 0 <= i < |s| && s[i] == r.value && forall k :: 0 <= k < i ==> s[k].slug != p.slug;
      assert forall k :: 0 <= k < |rows| ==> s[k] == rows[k];
      assert i == |rows|;
    }
  }
}

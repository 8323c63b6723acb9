/**
 * What the `posts` query of src/resolvers/post.ts promises its callers: the
 * page size, what `hasMore` means, that a page is the newest run of the
 * posts older than the cursor, newest first, and that following the cursor
 * of the last post returned walks the same ordered list without skipping or
 * repeating a post when no two posts share a timestamp.
 */
module PostPaging {
  import opened Wrappers
  import opened PostResolver

  // ---------------------------------------------------------------------
  // The filter
  // ---------------------------------------------------------------------

  /** The filter keeps each older post as often as it occurs, and nothing else. */
  lemma BeforeMember(rows: seq<Post>, t: int, p: Post)
    ensures p in Before(rows, t) <==> p in rows && p.createdAt < t
  {
    BeforeExact(rows, t, p);
  }

  lemma {:induction false} BeforeConcat(a: seq<Post>, b: seq<Post>, t: int)
    ensures Before(a + b, t) == Before(a, t) + Before(b, t)
  {
    if a == [] {
      assert a + b == b;
    } else {
      assert (a + b)[0] == a[0] && (a + b)[1..] == a[1..] + b;
      BeforeConcat(a[1..], b, t);
    }
  }

  lemma {:induction false} BeforeAll(s: seq<Post>, t: int)
    requires forall i :: 0 <= i < |s| ==> s[i].createdAt < t
    ensures Before(s, t) == s
  {
    if s != [] {
      BeforeAll(s[1..], t);
      assert s == [s[0]] + s[1..];
    }
  }

  lemma {:induction false} BeforeNone(s: seq<Post>, t: int)
    requires forall i :: 0 <= i < |s| ==> s[i].createdAt >= t
    ensures Before(s, t) == []
  {
    if s != [] {
      BeforeNone(s[1..], t);
    }
  }

  /** Filtering by an older cursor after a newer one is filtering by the older one. */
  lemma {:induction false} BeforeCompose(rows: seq<Post>, c: int, t: int)
    requires t <= c
    ensures Before(Before(rows, c), t) == Before(rows, t)
  {
    if rows != [] {
      var x, tail := rows[0], Before(rows[1..], c);
      BeforeCompose(rows[1..], c, t);
      if x.createdAt < c {
        assert Before(rows, c) == [x] + tail;
        assert ([x] + tail)[0] == x && ([x] + tail)[1..] == tail;
      } else {
        assert Before(rows, c) == tail;
      }
    }
  }

  // ---------------------------------------------------------------------
  // The sort
  // ---------------------------------------------------------------------

  lemma InsertMember(p: Post, s: seq<Post>, q: Post)
    ensures q in InsertByDate(p, s) <==> q == p || q in s
  {
    assert q in multiset(InsertByDate(p, s)) <==> q in multiset(s) + multiset{p};
  }

  lemma {:induction false} InsertKeepsOrder(p: Post, s: seq<Post>)
    requires NewestFirstOrder(s)
    ensures NewestFirstOrder(InsertByDate(p, s))
  {
    if s != [] && p.createdAt < s[0].createdAt {
      var tail := s[1..];
      InsertKeepsOrder(p, tail);
      var r := InsertByDate(p, s);
      var it := InsertByDate(p, tail);
      assert r == [s[0]] + it;
      forall j | 0 < j < |r| ensures r[0].createdAt >= r[j].createdAt {
        assert r[j] in it;
        InsertMember(p, tail, r[j]);
        if r[j] != p {
          var k :| 0 <= k < |tail| && tail[k] == r[j];
          assert s[k + 1] == r[j];
        }
      }
      forall i, j | 0 < i < j < |r| ensures r[i].createdAt >= r[j].createdAt {
        assert r[i] == it[i - 1] && r[j] == it[j - 1];
      }
    }
  }

  /** The query's order: newest first. */
  lemma {:induction false} NewestFirstOrdered(s: seq<Post>)
    ensures NewestFirstOrder(NewestFirst(s))
  {
    if s != [] {
      NewestFirstOrdered(s[1..]);
      InsertKeepsOrder(s[0], NewestFirst(s[1..]));
    }
  }

  lemma NewestFirstMember(s: seq<Post>, q: Post)
    ensures q in NewestFirst(s) <==> q in s
  {
    assert q in multiset(NewestFirst(s)) <==> q in multiset(s);
  }

  /** A post not older than the head of an ordered list goes in front, also after filtering. */
  lemma BeforeInsertFront(x: Post, u: seq<Post>, t: int)
    requires NewestFirstOrder(u) && u != [] && x.createdAt >= u[0].createdAt
    ensures Before(InsertByDate(x, u), t) ==
              if x.createdAt < t then InsertByDate(x, Before(u, t)) else Before(u, t)
  {
    var b := Before(u, t);
    assert InsertByDate(x, u) == [x] + u;
    assert ([x] + u)[0] == x && ([x] + u)[1..] == u;
    if x.createdAt < t && b != [] {
      assert b[0] in b;
      BeforeMember(u, t, b[0]);
      var k :| 0 <= k < |u| && u[k] == b[0];
      assert u[0].createdAt >= u[k].createdAt;
    }
  }

  /** Filtering an ordered list after inserting is inserting into the filtered list, if the post passes. */
  lemma {:induction false} BeforeInsert(x: Post, u: seq<Post>, t: int)
    requires NewestFirstOrder(u)
    ensures Before(InsertByDate(x, u), t) ==
              if x.createdAt < t then InsertByDate(x, Before(u, t)) else Before(u, t)
  {
    if u == [] {
    } else if x.createdAt >= u[0].createdAt {
      BeforeInsertFront(x, u, t);
    } else {
      OrderedTail(u);
      BeforeInsert(x, u[1..], t);
      BeforeInsertBehind(x, u, t);
    }
  }

  lemma OrderedTail(u: seq<Post>)
    requires NewestFirstOrder(u) && u != []
    ensures NewestFirstOrder(u[1..])
  {
    forall i, j | 0 <= i < j < |u[1..]| ensures u[1..][i].createdAt >= u[1..][j].createdAt {
      assert u[1..][i] == u[i + 1] && u[1..][j] == u[j + 1];
    }
  }

  /** The step of BeforeInsert for a post older than the head: the head stays in front. */
  lemma BeforeInsertBehind(x: Post, u: seq<Post>, t: int)
    requires u != [] && x.createdAt < u[0].createdAt
    requires Before(InsertByDate(x, u[1..]), t) ==
               if x.createdAt < t then InsertByDate(x, Before(u[1..], t)) else Before(u[1..], t)
    ensures Before(InsertByDate(x, u), t) ==
              if x.createdAt < t then InsertByDate(x, Before(u, t)) else Before(u, t)
  {
    var u0, tail := u[0], u[1..];
    assert u == [u0] + tail;
    var it, bt := InsertByDate(x, tail), Before(tail, t);
    InsertBehind(x, u0, tail);
    BeforeCons(u0, it, t);
    BeforeCons(u0, tail, t);
    if u0.createdAt < t {
      assert Before([u0] + tail, t) == [u0] + bt;
      assert Before([u0] + it, t) == [u0] + Before(it, t);
      if x.createdAt < t {
        InsertBehind(x, u0, bt);
      }
    } else {
      assert Before([u0] + tail, t) == bt;
      assert Before([u0] + it, t) == Before(it, t);
    }
  }

  /** A post older than the head is inserted behind it. */
  lemma InsertBehind(x: Post, u0: Post, s: seq<Post>)
    requires x.createdAt < u0.createdAt
    ensures InsertByDate(x, [u0] + s) == [u0] + InsertByDate(x, s)
  {
    assert ([u0] + s)[0] == u0 && ([u0] + s)[1..] == s;
  }

  lemma BeforeCons(x: Post, s: seq<Post>, t: int)
    ensures Before([x] + s, t) == (if x.createdAt < t then [x] else []) + Before(s, t)
  {
    assert ([x] + s)[0] == x && ([x] + s)[1..] == s;
  }

  /** Sorting then filtering equals filtering then sorting. */
  lemma {:induction false} SortThenFilter(s: seq<Post>, t: int)
    ensures NewestFirst(Before(s, t)) == Before(NewestFirst(s), t)
  {
    if s != [] {
      var x, tail := s[0], s[1..];
      SortThenFilter(tail, t);
      NewestFirstOrdered(tail);
      BeforeInsert(x, NewestFirst(tail), t);
      var bt := Before(tail, t);
      if x.createdAt < t {
        assert Before(s, t) == [x] + bt;
        assert ([x] + bt)[0] == x && ([x] + bt)[1..] == bt;
      } else {
        assert Before(s, t) == bt;
      }
    }
  }

  // ---------------------------------------------------------------------
  // Distinct timestamps
  // ---------------------------------------------------------------------

  ghost predicate DistinctTimes(s: seq<Post>) {
    forall i, j :: 0 <= i < j < |s| ==> s[i].createdAt != s[j].createdAt
  }

  lemma {:induction false} BeforeKeepsDistinct(s: seq<Post>, t: int)
    requires DistinctTimes(s)
    ensures DistinctTimes(Before(s, t))
  {
    if s != [] {
      var x, tail := s[0], s[1..];
      assert DistinctTimes(tail) by {
        forall i, j | 0 <= i < j < |tail| ensures tail[i].createdAt != tail[j].createdAt {
          assert tail[i] == s[i + 1] && tail[j] == s[j + 1];
        }
      }
      BeforeKeepsDistinct(tail, t);
      var bt := Before(tail, t);
      assert s == [x] + tail;
      if x.createdAt < t {
        assert Before(s, t) == [x] + bt;
        forall p | p in bt ensures p in tail {
          BeforeMember(tail, t, p);
        }
        ConsKeepsDistinct(x, tail, bt);
      } else {
        assert Before(s, t) == bt;
      }
    }
  }

  /** Putting a post in front of distinct posts drawn from its distinct successors keeps times distinct. */
  lemma ConsKeepsDistinct(x: Post, tail: seq<Post>, bt: seq<Post>)
    requires DistinctTimes([x] + tail) && DistinctTimes(bt)
    requires forall p :: p in bt ==> p in tail
    ensures DistinctTimes([x] + bt)
  {
    var s, r := [x] + tail, [x] + bt;
    forall i, j | 0 <= i < j < |r| ensures r[i].createdAt != r[j].createdAt {
      assert r[j] == bt[j - 1] && r[j] in bt;
      if i == 0 {
        var k :| 0 <= k < |tail| && tail[k] == r[j];
        assert s[0] == x && s[k + 1] == r[j];
      } else {
        assert r[i] == bt[i - 1];
      }
    }
  }

  lemma {:induction false} InsertKeepsDistinct(p: Post, s: seq<Post>)
    requires DistinctTimes(s)
    requires forall i :: 0 <= i < |s| ==> s[i].createdAt != p.createdAt
    ensures DistinctTimes(InsertByDate(p, s))
  {
    var r := InsertByDate(p, s);
    if s == [] {
    } else if p.createdAt >= s[0].createdAt {
      assert r == [p] + s;
      forall i, j | 0 <= i < j < |r| ensures r[i].createdAt != r[j].createdAt {
        assert r[j] == s[j - 1];
        if i > 0 {
          assert r[i] == s[i - 1];
        }
      }
    } else {
      var tail := s[1..];
      InsertKeepsDistinct(p, tail);
      var it := InsertByDate(p, tail);
      assert r == [s[0]] + it;
      forall i, j | 0 <= i < j < |r| ensures r[i].createdAt != r[j].createdAt {
        assert r[j] == it[j - 1] && r[j] in it;
        if i == 0 {
          InsertMember(p, tail, r[j]);
          if r[j] != p {
            var k :| 0 <= k < |tail| && tail[k] == r[j];
            assert s[k + 1] == r[j];
          }
        } else {
          assert r[i] == it[i - 1];
        }
      }
    }
  }

  lemma {:induction false} NewestFirstKeepsDistinct(s: seq<Post>)
    requires DistinctTimes(s)
    ensures DistinctTimes(NewestFirst(s))
  {
    if s != [] {
      var tail := s[1..];
      NewestFirstKeepsDistinct(tail);
      var sorted := NewestFirst(tail);
      forall i | 0 <= i < |sorted| ensures sorted[i].createdAt != s[0].createdAt {
        assert sorted[i] in sorted;
        NewestFirstMember(tail, sorted[i]);
        var k :| 0 <= k < |tail| && tail[k] == sorted[i];
        assert s[k + 1] == sorted[i];
      }
      InsertKeepsDistinct(s[0], sorted);
    }
  }

  // ---------------------------------------------------------------------
  // A page
  // ---------------------------------------------------------------------

  /** The list a page is cut from: the candidates, newest first. */
  function Ordered(rows: seq<Post>, cursor: Option<int>): seq<Post> {
    NewestFirst(Candidates(rows, cursor))
  }

  /**
   * A page is the start of the fetched rows and of the ordered candidates:
   * `min(10, limit)` posts, or all of them when there are fewer.
   */
  lemma PageIsPrefix(rows: seq<Post>, limit: int, cursor: Option<int>)
    requires limit >= -1
    ensures var page := Posts(rows, limit, cursor).value;
            var s := Ordered(rows, cursor);
            page.posts == Fetch(rows, cursor, Min(MaxPage, limit) + 1)[..|page.posts|]
            && page.posts == s[..|page.posts|]
            && |page.posts| == Min(Max(0, Min(MaxPage, limit)), |s|)
  {
  }

  /** `hasMore` says whether the over-fetch found a row beyond the page, that is, whether more candidates are left. */
  lemma HasMoreMeansMoreLeft(rows: seq<Post>, limit: int, cursor: Option<int>)
    requires limit >= -1
    ensures var page := Posts(rows, limit, cursor).value;
            page.hasMore <==> |Candidates(rows, cursor)| > Min(MaxPage, limit)
  {
    assert |Ordered(rows, cursor)| == |Candidates(rows, cursor)| by {
      assert |multiset(Ordered(rows, cursor))| == |multiset(Candidates(rows, cursor))|;
    }
  }

  /** Every post on a page is a stored post older than the cursor. */
  lemma PageRespectsCursor(rows: seq<Post>, limit: int, cursor: Option<int>, i: int)
    requires limit >= -1
    requires 0 <= i < |Posts(rows, limit, cursor).value.posts|
    ensures var p := Posts(rows, limit, cursor).value.posts[i];
            p in rows && (cursor.Some? ==> p.createdAt < cursor.value)
  {
    PageIsPrefix(rows, limit, cursor);
    var p := Posts(rows, limit, cursor).value.posts[i];
    var c := Candidates(rows, cursor);
    assert p in Ordered(rows, cursor);
    NewestFirstMember(c, p);
  }

  /** A page is ordered newest first. */
  lemma PageOrdered(rows: seq<Post>, limit: int, cursor: Option<int>)
    requires limit >= -1
    ensures NewestFirstOrder(Posts(rows, limit, cursor).value.posts)
  {
    PageIsPrefix(rows, limit, cursor);
    NewestFirstOrdered(Candidates(rows, cursor));
  }

  /** In a list ordered newest first, a strictly newer post comes earlier. */
  lemma NewerComesFirst(s: seq<Post>, i: int, j: int)
    requires NewestFirstOrder(s) && 0 <= i < |s| && 0 <= j < |s|
    requires s[j].createdAt > s[i].createdAt
    ensures j < i
  {
  }

  /** No candidate newer than a post on the page is left off it. */
  lemma NothingNewerLeftOut(rows: seq<Post>, limit: int, cursor: Option<int>, i: int, q: Post)
    requires limit >= -1
    requires 0 <= i < |Posts(rows, limit, cursor).value.posts|
    requires q in rows && (cursor.Some? ==> q.createdAt < cursor.value)
    requires q.createdAt > Posts(rows, limit, cursor).value.posts[i].createdAt
    ensures q in Posts(rows, limit, cursor).value.posts
  {
    var page := Posts(rows, limit, cursor).value.posts;
    var c := Candidates(rows, cursor);
    var s := Ordered(rows, cursor);
    PageIsPrefix(rows, limit, cursor);
    assert page == s[..|page|];
    NewestFirstOrdered(c);
    NewestFirstMember(c, q);
    var j :| 0 <= j < |s| && s[j] == q;
    assert s[i] == page[i];
    NewerComesFirst(s, i, j);
    assert page[j] == q;
  }

  /** Without `hasMore`, the page holds every candidate. */
  lemma LastPageComplete(rows: seq<Post>, limit: int, cursor: Option<int>)
    requires limit >= 0 && !Posts(rows, limit, cursor).value.hasMore
    ensures multiset(Posts(rows, limit, cursor).value.posts) == multiset(Candidates(rows, cursor))
  {
    PageIsPrefix(rows, limit, cursor);
    HasMoreMeansMoreLeft(rows, limit, cursor);
    var s := Ordered(rows, cursor);
    assert |s| == |Candidates(rows, cursor)| by {
      assert |multiset(s)| == |multiset(Candidates(rows, cursor))|;
    }
    assert Posts(rows, limit, cursor).value.posts == s;
  }

  /**
   * A limit of -1 asks the database for no rows, and the length test still
   * succeeds: an empty page that says there is more.
   */
  lemma MinusOneLimit(rows: seq<Post>, cursor: Option<int>)
    ensures Posts(rows, -1, cursor) == Some(PaginatedPosts([], true))
  {
  }

  // ---------------------------------------------------------------------
  // Following the cursor
  // ---------------------------------------------------------------------

  /** Past the newest `k` posts of a strictly ordered list, the older ones are the rest of it. */
  lemma StrictSuffix(s: seq<Post>, k: int)
    requires NewestFirstOrder(s) && DistinctTimes(s) && 0 < k <= |s|
    ensures Before(s, s[k - 1].createdAt) == s[k..]
  {
    var t := s[k - 1].createdAt;
    var front, back := s[..k], s[k..];
    assert s == front + back;
    forall i | 0 <= i < |front| ensures front[i].createdAt >= t {
      assert front[i] == s[i];
      if i < k - 1 {
        assert s[i].createdAt >= s[k - 1].createdAt;
      }
    }
    forall i | 0 <= i < |back| ensures back[i].createdAt < t {
      assert back[i] == s[k + i];
      assert s[k - 1].createdAt >= s[k + i].createdAt && s[k - 1].createdAt != s[k + i].createdAt;
    }
    BeforeConcat(front, back, t);
    BeforeNone(front, t);
    BeforeAll(back, t);
  }

  /** The candidates older than the `k`-th of an ordered list, ordered, are the rest of that list. */
  lemma {:induction false} OlderThanKth(rows: seq<Post>, cursor: Option<int>, k: int)
    requires DistinctTimes(rows)
    requires 0 < k <= |Ordered(rows, cursor)|
    ensures Ordered(rows, Some(Ordered(rows, cursor)[k - 1].createdAt)) == Ordered(rows, cursor)[k..]
  {
    var s, c := Ordered(rows, cursor), Candidates(rows, cursor);
    var t := s[k - 1].createdAt;
    // The posts older than `t` are those older than `t` among the candidates.
    if cursor.Some? {
      assert s[k - 1] in s;
      NewestFirstMember(c, s[k - 1]);
      BeforeCompose(rows, cursor.value, t);
      BeforeKeepsDistinct(rows, cursor.value);
    }
    assert Before(c, t) == Before(rows, t);
    // Sorting commutes with the filter, and in the ordered list they are the rest.
    SortThenFilter(c, t);
    NewestFirstOrdered(c);
    NewestFirstKeepsDistinct(c);
    StrictSuffix(s, k);
  }

  /** A page that says there is more is full: `min(10, limit)` posts, with more left in the list. */
  lemma FullPage(rows: seq<Post>, limit: int, cursor: Option<int>)
    requires limit >= 1 && Posts(rows, limit, cursor).value.hasMore
    ensures var s, page := Ordered(rows, cursor), Posts(rows, limit, cursor).value.posts;
            0 < |page| == Min(MaxPage, limit) < |s| && page == s[..|page|]
  {
    PageIsPrefix(rows, limit, cursor);
    HasMoreMeansMoreLeft(rows, limit, cursor);
    assert |Ordered(rows, cursor)| == |Candidates(rows, cursor)| by {
      assert |multiset(Ordered(rows, cursor))| == |multiset(Candidates(rows, cursor))|;
    }
  }

  /** The first `k` elements followed by the first `m` of the rest are a start of the list. */
  lemma PrefixThenRest(s: seq<Post>, k: int, m: int)
    requires 0 <= k <= |s| && 0 <= m <= |s| - k
    ensures s[..k] + s[k..][..m] <= s
  {
    assert s[..k] + s[k..][..m] == s[..k + m];
  }

  /**
   * The first page is not empty, and with its last post's timestamp as the
   * next cursor the two pages together are a start of the first page's
   * ordered candidates.
   */
  ghost predicate PagesContinue(rows: seq<Post>, limit1: int, cursor1: Option<int>, limit2: int) {
    && Posts(rows, limit1, cursor1).Some?
    && var page1 := Posts(rows, limit1, cursor1).value.posts;
    && |page1| > 0
    && Posts(rows, limit2, Some(page1[|page1| - 1].createdAt)).Some?
    && var page2 := Posts(rows, limit2, Some(page1[|page1| - 1].createdAt)).value.posts;
    page1 + page2 <= Ordered(rows, cursor1)
  }

  /**
   * The next page, asked for with the last post of a page that had more,
   * continues the same ordered list: the two pages together are its start.
   */
  lemma NextPageContinues(rows: seq<Post>, limit1: int, cursor1: Option<int>, limit2: int)
    requires DistinctTimes(rows)
    requires limit1 >= 1 && limit2 >= -1
    requires Posts(rows, limit1, cursor1).value.hasMore
    ensures PagesContinue(rows, limit1, cursor1, limit2)
  {
    var s1 := Ordered(rows, cursor1);
    FullPage(rows, limit1, cursor1);
    var p1 := Posts(rows, limit1, cursor1).value.posts;
    var k := |p1|;
    OlderThanKth(rows, cursor1, k);
    assert p1[k - 1] == s1[k - 1];
    var t := p1[k - 1].createdAt;
    PageIsPrefix(rows, limit2, Some(t));
    var p2 := Posts(rows, limit2, Some(t)).value.posts;
    PrefixThenRest(s1, k, |p2|);
  }

  // ---------------------------------------------------------------------
  // Tied creation times
  // ---------------------------------------------------------------------

  /**
   * The cursor filter is strict, so no post sharing the last post's
   * timestamp is on the next page, whichever order the database chose.
   */
  lemma TiedPostNeverNext(rows: seq<Post>, limit1: int, cursor1: Option<int>, limit2: int, q: Post)
    requires limit1 >= -1 && limit2 >= -1
    requires |Posts(rows, limit1, cursor1).value.posts| > 0
    requires var page1 := Posts(rows, limit1, cursor1).value.posts;
             q.createdAt == page1[|page1| - 1].createdAt
    ensures var page1 := Posts(rows, limit1, cursor1).value.posts;
            q !in Posts(rows, limit2, Some(page1[|page1| - 1].createdAt)).value.posts
  {
    var page1 := Posts(rows, limit1, cursor1).value.posts;
    var t := page1[|page1| - 1].createdAt;
    var page2 := Posts(rows, limit2, Some(t)).value.posts;
    if q in page2 {
      var i :| 0 <= i < |page2| && page2[i] == q;
      PageRespectsCursor(rows, limit2, Some(t), i);
    }
  }

  /**
   * Two posts with the same timestamp and pages of one: the first page
   * holds one of them and reports more, the page after it is empty, and
   * the other post is never served.
   */
  lemma TiedPostSkipped()
    ensures var a, b := Post(1, "a", "a", 5), Post(2, "b", "b", 5);
            Posts([a, b], 1, None) == Some(PaginatedPosts([a], true))
            && Posts([a, b], 1, Some(5)) == Some(PaginatedPosts([], false))
  {
    var a, b := Post(1, "a", "a", 5), Post(2, "b", "b", 5);
    assert [a, b][1..] == [b] && [b][1..] == [];
    assert NewestFirst([b]) == [b];
    assert InsertByDate(a, [b]) == [a, b];
    assert NewestFirst([a, b]) == [a, b];
    assert Fetch([a, b], None, 2) == [a, b];
    assert SliceTo([a, b], 1) == [a];
    assert Before([b], 5) == [];
    assert Before([a, b], 5) == [];
  }
}

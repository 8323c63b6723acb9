/**
 * The video records of src/resolvers/video.ts: `createVideo` asks the
 * transcoding service for an asset and saves a record whatever it answers,
 * `deleteVideo` removes a record by id and says whether there was one, and
 * the `videos` query lists the records of one post slug. The upload request
 * (src/utilities/video.ts) is a function parameter.
 */
module VideoResolver {
  import opened Wrappers

  /** `CreateVideoParameters`, field for field. */
  datatype CreateVideoParameters = CreateVideoParameters(
    slug: string, key: string, description: string,
    captionsFile: string, captionsStorageId: string, captionsStorageKey: string, captionsUrl: string,
    videoFile: string, videoStorageId: string, videoStorageKey: string, videoUrl: string)

  /** What `upload` is given. */
  datatype UploadRequest = UploadRequest(captionsUrl: string, videoUrl: string)

  /** What `upload` answers: `{ successful: true, playbackId, videoId }` or `{ successful: false, message }`. */
  datatype UploadResult = Uploaded(playbackId: string, videoId: string) | UploadFailed(message: string)

  /** Destructuring `playbackId` from either answer: absent after a failure. */
  function PlaybackIdOf(u: UploadResult): (r: Option<string>)
    ensures r.Some? <==> u.Uploaded?
    ensures u.Uploaded? ==> r.value == u.playbackId
  {
    if u.Uploaded? then Some(u.playbackId) else None
  }

  function VideoIdOf(u: UploadResult): (r: Option<string>)
    ensures r.Some? <==> u.Uploaded?
    ensures u.Uploaded? ==> r.value == u.videoId
  {
    if u.Uploaded? then Some(u.videoId) else None
  }

  /** A row of the `video` table: the spread parameters plus the fields `createVideo` sets. */
  datatype Video = Video(id: int, parameters: CreateVideoParameters, duration: int,
                         playbackId: Option<string>, videoId: Option<string>, ready: bool)

  /** `Video.find({ where: { slug } })`: the rows of one slug, in table order. */
  function WithSlug(rows: seq<Video>, slug: string): (r: seq<Video>)
    ensures |r| <= |rows|
    ensures forall v :: v in r <==> v in rows && v.parameters.slug == slug
  {
    if rows == [] then []
    else
      assert rows == [rows[0]] + rows[1..];
      (if rows[0].parameters.slug == slug then [rows[0]] else []) + WithSlug(rows[1..], slug)
  }

  /** The listing holds each row of the slug as often as the table does, and nothing else. */
  lemma {:induction false} WithSlugExact(rows: seq<Video>, slug: string, v: Video)
    ensures multiset(WithSlug(rows, slug))[v] == if v.parameters.slug == slug then multiset(rows)[v] else 0
  {
    if rows != [] {
      assert rows == [rows[0]] + rows[1..];
      WithSlugExact(rows[1..], slug, v);
    }
  }

  /** `Video.delete({ id })`: every row with that id goes, the others stay in order. */
  function Without(rows: seq<Video>, id: int): (r: seq<Video>)
    ensures |r| <= |rows|
    ensures forall v :: v in r <==> v in rows && v.id != id
  {
    if rows == [] then []
    else
      assert rows == [rows[0]] + rows[1..];
      (if rows[0].id == id then [] else [rows[0]]) + Without(rows[1..], id)
  }

  /** Deleting removes every row with the id and keeps every other row as often as it was there. */
  lemma {:induction false} WithoutExact(rows: seq<Video>, id: int, v: Video)
    ensures multiset(Without(rows, id))[v] == if v.id == id then 0 else multiset(rows)[v]
  {
    if rows != [] {
      assert rows == [rows[0]] + rows[1..];
      WithoutExact(rows[1..], id, v);
    }
  }

  /** Deleting an id no row has changes nothing. */
  lemma {:induction false} WithoutAbsent(rows: seq<Video>, id: int)
    requires forall i :: 0 <= i < |rows| ==> rows[i].id != id
    ensures Without(rows, id) == rows
  {
    if rows != [] {
      WithoutAbsent(rows[1..], id);
      assert rows == [rows[0]] + rows[1..];
    }
  }

  function Ids(rows: seq<Video>): (r: set<int>)
    ensures forall id :: id in r <==> exists i :: 0 <= i < |rows| && rows[i].id == id
  {
    set i | 0 <= i < |rows| :: rows[i].id
  }

  /** A new record is listed under its slug, after the ones already there. */
  lemma {:induction false} CreatedIsListed(rows: seq<Video>, v: Video)
    ensures WithSlug(rows + [v], v.parameters.slug) == WithSlug(rows, v.parameters.slug) + [v]
  {
    if rows != [] {
      assert (rows + [v])[1..] == rows[1..] + [v];
      CreatedIsListed(rows[1..], v);
    }
  }

  lemma WithoutCons(x: Video, s: seq<Video>, id: int)
    ensures Without([x] + s, id) == (if x.id == id then [] else [x]) + Without(s, id)
  {
    assert ([x] + s)[0] == x && ([x] + s)[1..] == s;
  }

  lemma WithSlugCons(x: Video, s: seq<Video>, slug: string)
    ensures WithSlug([x] + s, slug) == (if x.parameters.slug == slug then [x] else []) + WithSlug(s, slug)
  {
    assert ([x] + s)[0] == x && ([x] + s)[1..] == s;
  }

  /** Listing after a delete is the old listing without that id. */
  lemma {:induction false} DeleteThenList(rows: seq<Video>, id: int, slug: string)
    ensures WithSlug(Without(rows, id), slug) == Without(WithSlug(rows, slug), id)
  {
    if rows != [] {
      var x, t, w := rows[0], Without(rows[1..], id), WithSlug(rows[1..], slug);
      DeleteThenList(rows[1..], id, slug);
      assert rows == [x] + rows[1..];
      WithoutCons(x, rows[1..], id);
      WithSlugCons(x, rows[1..], slug);
      if x.id == id {
        assert Without(rows, id) == t;
        if x.parameters.slug == slug {
          WithoutCons(x, w, id);
          assert Without([x] + w, id) == Without(w, id);
        } else {
          assert WithSlug(rows, slug) == w;
        }
      } else {
        assert Without(rows, id) == [x] + t;
        WithSlugCons(x, t, slug);
        if x.parameters.slug == slug {
          WithoutCons(x, w, id);
        } else {
          assert WithSlug(rows, slug) == w;
          assert WithSlug([x] + t, slug) == WithSlug(t, slug);
        }
      }
    }
  }

  /** A second delete finds nothing left to delete. */
  lemma DeleteIdempotent(rows: seq<Video>, id: int)
    ensures id !in Ids(Without(rows, id))
    ensures Without(Without(rows, id), id) == Without(rows, id)
  {
    var r := Without(rows, id);
    forall i | 0 <= i < |r| ensures r[i].id != id {
      assert r[i] in r;
    }
    WithoutAbsent(r, id);
  }

  class VideoTable {
    var rows: seq<Video>
    var nextId: int

    /** Ids come from a sequence: positive, below the next one, never repeated. */
    ghost predicate Valid()
      reads this
    {
      nextId >= 1
      && (forall i :: 0 <= i < |rows| ==> 1 <= rows[i].id < nextId)
      && DistinctIds(rows)
    }

    constructor ()
      ensures Valid() && rows == [] && nextId == 1
    {
      rows := [];
      nextId := 1;
    }

    /**
     * `createVideo`: upload the two URLs, then save the parameters with
     * duration 0, not ready, and whatever ids the upload gave. There is no
     * check of `successful`, so a failed upload is saved too.
     */
    method CreateVideo(parameters: CreateVideoParameters, upload: UploadRequest -> UploadResult)
      returns (v: Video)
      requires Valid()
      modifies this
      ensures Valid()
      ensures var u := upload(UploadRequest(parameters.captionsUrl, parameters.videoUrl));
              v == Video(old(nextId), parameters, 0, PlaybackIdOf(u), VideoIdOf(u), false)
      ensures rows == old(rows) + [v] && nextId == old(nextId) + 1
    {
      var u := upload(UploadRequest(parameters.captionsUrl, parameters.videoUrl));
      v := Video(nextId, parameters, 0, PlaybackIdOf(u), VideoIdOf(u), false);
      rows := rows + [v];
      nextId := nextId + 1;
    }

    /** `deleteVideo`: `false` and no change when no row has the id, otherwise remove it and `true`. */
    method DeleteVideo(id: int) returns (deleted: bool)
      requires Valid()
      modifies this
      ensures Valid() && nextId == old(nextId)
      ensures deleted <==> id in Ids(old(rows))
      ensures rows == Without(old(rows), id)
      ensures !deleted ==> rows == old(rows)
      ensures deleted ==> |rows| == |old(rows)| - 1
      ensures id !in Ids(rows)
    {
      deleted := id in Ids(rows);
      if !deleted {
        WithoutAbsent(rows, id);
      } else {
        WithoutOne(rows, id);
      }
      DeleteIdempotent(rows, id);
      ghost var before := rows;
      rows := Without(rows, id);
      forall i | 0 <= i < |rows| ensures 1 <= rows[i].id < nextId {
        assert rows[i] in rows;
      }
      WithoutKeepsDistinct(before, id);
    }
  }

  ghost predicate DistinctIds(rows: seq<Video>) {
    forall i, j :: 0 <= i < j < |rows| ==> rows[i].id != rows[j].id
  }

  /** With distinct ids, deleting an id that is there removes exactly one row. */
  lemma {:induction false} WithoutOne(rows: seq<Video>, id: int)
    requires DistinctIds(rows) && id in Ids(rows)
    ensures |Without(rows, id)| == |rows| - 1
  {
    var tail := rows[1..];
    assert DistinctIds(tail) by {
      forall i, j | 0 <= i < j < |tail| ensures tail[i].id != tail[j].id {
        assert tail[i] == rows[i + 1] && tail[j] == rows[j + 1];
      }
    }
    if rows[0].id == id {
      forall i | 0 <= i < |tail| ensures tail[i].id != id {
        assert tail[i] == rows[i + 1];
      }
      WithoutAbsent(tail, id);
    } else {
      var k :| 0 <= k < |rows| && rows[k].id == id;
      assert tail[k - 1] == rows[k];
      WithoutOne(tail, id);
    }
  }

  /** Removing rows keeps ids distinct. */
  lemma {:induction false} WithoutKeepsDistinct(rows: seq<Video>, id: int)
    requires DistinctIds(rows)
    ensures DistinctIds(Without(rows, id))
  {
    if rows != [] {
      var x, rest := rows[0], rows[1..];
      assert DistinctIds(rest) by {
        forall i, j | 0 <= i < j < |rest| ensures rest[i].id != rest[j].id {
          assert rest[i] == rows[i + 1] && rest[j] == rows[j + 1];
        }
      }
      WithoutKeepsDistinct(rest, id);
      var tail := Without(rest, id);
      assert rows == [x] + rest;
      if x.id != id {
        assert Without(rows, id) == [x] + tail;
        ConsKeepsDistinct(x, rest, tail);
      } else {
        assert Without(rows, id) == tail;
      }
    }
  }

  /** Putting a row in front of distinct rows drawn from its distinct successors keeps ids distinct. */
  lemma ConsKeepsDistinct(x: Video, rest: seq<Video>, tail: seq<Video>)
    requires DistinctIds([x] + rest) && DistinctIds(tail)
    requires forall v :: v in tail ==> v in rest
    ensures DistinctIds([x] + tail)
  {
    var s, r := [x] + rest, [x] + tail;
    forall i, j | 0 <= i < j < |r| ensures r[i].id != r[j].id {
      assert r[j] == tail[j - 1] && r[j] in tail;
      if i == 0 {
        var k :| 0 <= k < |rest| && rest[k] == r[j];
        assert s[0] == x && s[k + 1] == r[j];
      } else {
        assert r[i] == tail[i - 1];
      }
    }
  }

  /** Deleting the same id twice: the second call reports `false`. */
  method DeleteTwice(table: VideoTable, id: int) returns (first: bool, second: bool)
    requires table.Valid()
    modifies table
    ensures first == (id in Ids(old(table.rows))) && !second
  {
    first := table.DeleteVideo(id);
    second := table.DeleteVideo(id);
  }
}

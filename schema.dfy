/**
  The relational schema of migration `VideosAndTags` (the Entity Framework
  model of `VideoDatabaseContext`), as an in-memory store.

  Three tables:
  - `Tags`: key `Id` (a generated `bigint`), a required text `Value`;
  - `Videos`: key `Id` (a generated `bigint`), integer `Codec`, `Format` and
    `Views`, an optional text `Name`;
  - `VideoTag`: the junction of the two, keyed by the pair (`VideoId`, `TagId`);
    each column is a required foreign key that cascades on delete.

  The store keeps the constraints the database enforces as its invariant
  `Valid`: keys below the identity counters, no two junction rows with the same
  pair, every junction row pointing at an existing video and an existing tag.
  Inserts that would break a constraint are refused with the store unchanged;
  deletes remove the junction rows that reference the deleted row.
*/
module Schema {
  import opened Wrappers
  import opened Integers

  const MaxIdentity: int := 0x7FFF_FFFF_FFFF_FFFF

  /** A `Tags` row without its key. `Value` is required, so it is always a string. */
  datatype Tag = Tag(value: string)

  /** A `Videos` row without its key. `Name` is nullable. */
  datatype Video = Video(codec: Int32, format: Int32, name: Option<string>, views: Int32)

  /** A `VideoTag` row: its two columns are its key. */
  datatype VideoTag = VideoTag(videoId: Int64, tagId: Int64)

  /** The two foreign-key columns of `VideoTag`. */
  datatype Column = VideoIdColumn | TagIdColumn

  function Key(row: VideoTag, column: Column): Int64 {
    match column
    case VideoIdColumn => row.videoId
    case TagIdColumn => row.tagId
  }

  /** No key (pair) occurs twice. */
  predicate DistinctRows(rows: seq<VideoTag>) {
    forall i, j :: 0 <= i < j < |rows| ==> rows[i] != rows[j]
  }

  /**
    The junction rows that survive a cascade: those whose `column` is not `id`,
    in their original order.
  */
  function Unreferencing(rows: seq<VideoTag>, column: Column, id: Int64): (kept: seq<VideoTag>)
    ensures forall row :: row in kept <==> row in rows && Key(row, column) != id
    ensures |kept| <= |rows|
  {
    if rows == [] then []
    else
      var init := Unreferencing(rows[..|rows| - 1], column, id);
      var last := rows[|rows| - 1];
      assert rows == rows[..|rows| - 1] + [last];
      if Key(last, column) != id then init + [last] else init
  }

  /** A cascade keeps the junction free of duplicate keys. */
  lemma {:induction false} UnreferencingDistinct(rows: seq<VideoTag>, column: Column, id: Int64)
    requires DistinctRows(rows)
    ensures DistinctRows(Unreferencing(rows, column, id))
  {
    if rows != [] {
      var prefix := rows[..|rows| - 1];
      var last := rows[|rows| - 1];
      UnreferencingDistinct(prefix, column, id);
      assert last !in prefix by {
        forall i | 0 <= i < |prefix|
          ensures prefix[i] != last
        {
          assert prefix[i] == rows[i];
        }
      }
    }
  }

  /** A cascade changes nothing when no row references the id. */
  lemma {:induction false} UnreferencingNoMatch(rows: seq<VideoTag>, column: Column, id: Int64)
    requires forall row :: row in rows ==> Key(row, column) != id
    ensures Unreferencing(rows, column, id) == rows
  {
    if rows != [] {
      var prefix := rows[..|rows| - 1];
      var last := rows[|rows| - 1];
      assert rows == prefix + [last];
      UnreferencingNoMatch(prefix, column, id);
      assert Key(last, column) != id;
    }
  }

  /** The first position of `target` in the junction, or `|rows|` when it is absent. */
  method FindRow(rows: seq<VideoTag>, target: VideoTag) returns (i: nat)
    ensures i <= |rows|
    ensures i < |rows| <==> target in rows
    ensures i < |rows| ==> rows[i] == target
    ensures target !in rows[..i]
  {
    i := 0;
    while i < |rows| && rows[i] != target
      invariant i <= |rows|
      invariant target !in rows[..i]
    {
      assert rows[..i + 1] == rows[..i] + [rows[i]];
      i := i + 1;
    }
    if i == |rows| {
      assert rows[..i] == rows;
    }
  }

  /** The rows a cascade keeps, collected in one pass in their original order. */
  method KeepUnreferencing(rows: seq<VideoTag>, column: Column, id: Int64) returns (kept: seq<VideoTag>)
    ensures kept == Unreferencing(rows, column, id)
  {
    kept := [];
    var i := 0;
    while i < |rows|
      invariant 0 <= i <= |rows|
      invariant kept == Unreferencing(rows[..i], column, id)
    {
      assert rows[..i + 1][..i] == rows[..i];
      if Key(rows[i], column) != id {
        kept := kept + [rows[i]];
      }
      i := i + 1;
    }
    assert rows[..i] == rows;
  }

  /**
    Removing the row at `i` from a junction without duplicates removes exactly
    that pair and keeps the rest without duplicates.
  */
  lemma RemoveAtDistinct(rows: seq<VideoTag>, i: nat)
    requires DistinctRows(rows) && i < |rows|
    ensures var rest := rows[..i] + rows[i + 1..];
      && DistinctRows(rest)
      && forall row :: row in rest <==> row in rows && row != rows[i]
  {
    var rest := rows[..i] + rows[i + 1..];
    assert rows == rows[..i] + [rows[i]] + rows[i + 1..];
    forall p | 0 <= p < |rest|
      ensures rest[p] == rows[if p < i then p else p + 1]
    {
    }
    forall row
      ensures row in rest <==> row in rows && row != rows[i]
    {
      if row in rest {
        var p :| 0 <= p < |rest| && rest[p] == row;
        assert rows[if p < i then p else p + 1] == row;
      }
    }
  }

  /** The outcomes of inserting a junction row. */
  datatype LinkOutcome = Linked | MissingVideo | MissingTag | DuplicateKey

  class VideoDatabaseContext {
    var tags: map<Int64, Tag>
    var videos: map<Int64, Video>
    var videoTags: seq<VideoTag>
    /** The identity sequences of `Tags.Id` and `Videos.Id`: the next key each hands out. */
    var nextTagId: int
    var nextVideoId: int

    /** The constraints of the schema, kept by every operation. */
    ghost predicate Valid()
      reads this
    {
      && 1 <= nextTagId && 1 <= nextVideoId
      && (forall id :: id in tags ==> 1 <= id < nextTagId)
      && (forall id :: id in videos ==> 1 <= id < nextVideoId)
      && DistinctRows(videoTags)
      && (forall row :: row in videoTags ==> row.videoId in videos && row.tagId in tags)
    }

    /** An empty database; both identity sequences start at 1. */
    constructor ()
      ensures Valid()
      ensures tags == map[] && videos == map[] && videoTags == []
      ensures nextTagId == 1 && nextVideoId == 1
    {
      tags, videos, videoTags := map[], map[], [];
      nextTagId, nextVideoId := 1, 1;
    }

    /**
      Inserts a tag under the next generated key, which no existing tag has.
      An exhausted identity sequence refuses the insert.
    */
    method AddTag(tag: Tag) returns (id: Option<Int64>)
      requires Valid()
      modifies this
      ensures Valid()
      ensures old(nextTagId) <= MaxIdentity ==>
        && id == Some(old(nextTagId) as Int64)
        && id.value !in old(tags)
        && tags == old(tags)[id.value := tag]
        && nextTagId == old(nextTagId) + 1
      ensures old(nextTagId) > MaxIdentity ==> id == None && tags == old(tags) && nextTagId == old(nextTagId)
      ensures videos == old(videos) && videoTags == old(videoTags) && nextVideoId == old(nextVideoId)
    {
      if nextTagId > MaxIdentity {
        return None;
      }
      var key: Int64 := nextTagId;
      tags := tags[key := tag];
      nextTagId := nextTagId + 1;
      id := Some(key);
    }

    /**
      Inserts a video under the next generated key, which no existing video has.
      An exhausted identity sequence refuses the insert.
    */
    method AddVideo(video: Video) returns (id: Option<Int64>)
      requires Valid()
      modifies this
      ensures Valid()
      ensures old(nextVideoId) <= MaxIdentity ==>
        && id == Some(old(nextVideoId) as Int64)
        && id.value !in old(videos)
        && videos == old(videos)[id.value := video]
        && nextVideoId == old(nextVideoId) + 1
      ensures old(nextVideoId) > MaxIdentity ==> id == None && videos == old(videos) && nextVideoId == old(nextVideoId)
      ensures tags == old(tags) && videoTags == old(videoTags) && nextTagId == old(nextTagId)
    {
      if nextVideoId > MaxIdentity {
        return None;
      }
      var key: Int64 := nextVideoId;
      videos := videos[key := video];
      nextVideoId := nextVideoId + 1;
      id := Some(key);
    }

    /** Whether the junction holds the pair: a scan of the `VideoTag` table. */
    method HasVideoTag(videoId: Int64, tagId: Int64) returns (found: bool)
      ensures found <==> VideoTag(videoId, tagId) in videoTags
    {
      var i := FindRow(videoTags, VideoTag(videoId, tagId));
      found := i < |videoTags|;
    }

    /**
      Inserts the junction row (videoId, tagId). Both foreign keys must name
      existing rows and the pair must be new; otherwise nothing changes.
    */
    method AddVideoTag(videoId: Int64, tagId: Int64) returns (outcome: LinkOutcome)
      requires Valid()
      modifies this
      ensures Valid()
      ensures outcome == (if videoId !in old(videos) then MissingVideo
                          else if tagId !in old(tags) then MissingTag
                          else if VideoTag(videoId, tagId) in old(videoTags) then DuplicateKey
                          else Linked)
      ensures outcome == Linked ==> videoTags == old(videoTags) + [VideoTag(videoId, tagId)]
      ensures outcome != Linked ==> videoTags == old(videoTags)
      ensures tags == old(tags) && videos == old(videos)
      ensures nextTagId == old(nextTagId) && nextVideoId == old(nextVideoId)
    {
      if videoId !in videos {
        return MissingVideo;
      }
      if tagId !in tags {
        return MissingTag;
      }
      var present := HasVideoTag(videoId, tagId);
      if present {
        return DuplicateKey;
      }
      var row := VideoTag(videoId, tagId);
      videoTags := videoTags + [row];
      outcome := Linked;
    }

    /** Deletes the junction row (videoId, tagId), if there is one. */
    method RemoveVideoTag(videoId: Int64, tagId: Int64) returns (removed: bool)
      requires Valid()
      modifies this
      ensures Valid()
      ensures removed <==> VideoTag(videoId, tagId) in old(videoTags)
      ensures VideoTag(videoId, tagId) !in videoTags
      ensures forall row :: row in videoTags <==> row in old(videoTags) && row != VideoTag(videoId, tagId)
      ensures tags == old(tags) && videos == old(videos)
      ensures nextTagId == old(nextTagId) && nextVideoId == old(nextVideoId)
    {
      var target := VideoTag(videoId, tagId);
      var i := FindRow(videoTags, target);
      if i == |videoTags| {
        return false;
      }
      RemoveAtDistinct(videoTags, i);
      videoTags := videoTags[..i] + videoTags[i + 1..];
      removed := true;
    }

    /**
      Deletes tag `id`. The foreign key `TagId` cascades: every junction row of
      that tag is removed with it, the others stay in order. Deleting a missing
      tag changes nothing.
    */
    method DeleteTag(id: Int64) returns (deleted: bool)
      requires Valid()
      modifies this
      ensures Valid()
      ensures deleted <==> id in old(tags)
      ensures tags == old(tags) - {id}
      ensures videoTags == Unreferencing(old(videoTags), TagIdColumn, id)
      ensures videos == old(videos)
      ensures nextTagId == old(nextTagId) && nextVideoId == old(nextVideoId)
    {
      if id !in tags {
        UnreferencingNoMatch(videoTags, TagIdColumn, id);
        return false;
      }
      tags := tags - {id};
      Cascade(TagIdColumn, id);
      deleted := true;
    }

    /**
      Deletes video `id`. The foreign key `VideoId` cascades: every junction row
      of that video is removed with it, the others stay in order. Deleting a
      missing video changes nothing.
    */
    method DeleteVideo(id: Int64) returns (deleted: bool)
      requires Valid()
      modifies this
      ensures Valid()
      ensures deleted <==> id in old(videos)
      ensures videos == old(videos) - {id}
      ensures videoTags == Unreferencing(old(videoTags), VideoIdColumn, id)
      ensures tags == old(tags)
      ensures nextTagId == old(nextTagId) && nextVideoId == old(nextVideoId)
    {
      if id !in videos {
        UnreferencingNoMatch(videoTags, VideoIdColumn, id);
        return false;
      }
      videos := videos - {id};
      Cascade(VideoIdColumn, id);
      deleted := true;
    }

    /**
      The cascade step of a delete: removes, in place, every junction row whose
      `column` is `id`. Rows referencing another key point at rows that still exist.
    */
    method Cascade(column: Column, id: Int64)
      requires 1 <= nextTagId && 1 <= nextVideoId
      requires forall k :: k in tags ==> 1 <= k < nextTagId
      requires forall k :: k in videos ==> 1 <= k < nextVideoId
      requires DistinctRows(videoTags)
      requires forall row :: row in videoTags && Key(row, column) != id ==> row.videoId in videos && row.tagId in tags
      modifies this
      ensures Valid()
      ensures videoTags == Unreferencing(old(videoTags), column, id)
      ensures tags == old(tags) && videos == old(videos)
      ensures nextTagId == old(nextTagId) && nextVideoId == old(nextVideoId)
    {
      UnreferencingDistinct(videoTags, column, id);
      videoTags := KeepUnreferencing(videoTags, column, id);
    }
  }
}

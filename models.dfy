/**
  The video model of the Go backend (package `models`): the status and
  visibility enumerations, the row a new upload starts as, and the queries and
  writes on the `videos` table.

  The table is a map from primary key to row. The snowflake generator that
  picks a new video's id is not part of this model: the id is a parameter.
*/
module Models {
  import opened Wrappers
  import opened Integers

  /** `VideoStatus`, an `int8` enumeration numbered from 0 by `iota`. */
  datatype VideoStatus = Created | Uploading | Processing | Complete {
    function Code(): Int8 {
      match this
      case Created => 0
      case Uploading => 1
      case Processing => 2
      case Complete => 3
    }
  }

  /** The status a stored code stands for, if any. */
  function StatusOfCode(code: Int8): (status: Option<VideoStatus>)
    ensures status.Some? <==> 0 <= code <= 3
  {
    if code == 0 then Some(Created)
    else if code == 1 then Some(Uploading)
    else if code == 2 then Some(Processing)
    else if code == 3 then Some(Complete)
    else None
  }

  /** `Visibility`, an `int8` enumeration numbered from 0 by `iota`. */
  datatype Visibility = Private | Unlisted | Public {
    function Code(): Int8 {
      match this
      case Private => 0
      case Unlisted => 1
      case Public => 2
    }
  }

  function VisibilityOfCode(code: Int8): (visibility: Option<Visibility>)
    ensures visibility.Some? <==> 0 <= code <= 2
  {
    if code == 0 then Some(Private)
    else if code == 1 then Some(Unlisted)
    else if code == 2 then Some(Public)
    else None
  }

  /** Each status has its own code, and decoding a code gives back its status. */
  lemma StatusCodes(s: VideoStatus, t: VideoStatus, code: Int8)
    ensures StatusOfCode(s.Code()) == Some(s)
    ensures s.Code() == t.Code() ==> s == t
    ensures StatusOfCode(code).Some? ==> StatusOfCode(code).value.Code() == code
  {
  }

  /** Each visibility has its own code, and decoding a code gives back its visibility. */
  lemma VisibilityCodes(v: Visibility, w: Visibility, code: Int8)
    ensures VisibilityOfCode(v.Code()) == Some(v)
    ensures v.Code() == w.Code() ==> v == w
    ensures VisibilityOfCode(code).Some? ==> VisibilityOfCode(code).value.Code() == code
  {
  }

  /** The part of a user the video model reads. */
  datatype User = User(id: Int64)

  /** A snowflake id: a typed view of the same 64-bit value. */
  datatype SnowflakeId = SnowflakeId(value: Int64)

  /**
    A `videos` row: the embedded `Base` key, `Metadata`, `Settings` and
    `Statistics`. The preloaded `Creator` association is left out; the row
    keeps its foreign key `creatorId`.
  */
  datatype Video = Video(
    id: Int64,
    status: VideoStatus, mimeType: string, durationSecs: Int32,
    creatorId: Int64, name: string, description: string, visibility: Visibility,
    views: Int64, likes: Int64, dislikes: Int64)
  {
    /** The id as a snowflake: the same value, retyped. */
    function IdSnowflake(): (s: SnowflakeId)
      ensures s.value == id
    {
      SnowflakeId(id)
    }

    /** Whether `user` created this video. */
    predicate IsCreator(user: User) {
      creatorId == user.id
    }
  }

  /**
    The row `NewVideo` builds: the given id, status `CREATED`, the default name,
    visibility `PUBLIC` and the creator's id; every other field keeps Go's zero
    value.
  */
  function NewVideoRow(id: Int64, creator: User): (video: Video)
    ensures video.id == id && video.status == Created && video.status.Code() == 0
    ensures video.name == "Untitled Video" && video.visibility == Public && video.visibility.Code() == 2
    ensures video.creatorId == creator.id
    ensures video.mimeType == "" && video.durationSecs == 0 && video.description == ""
    ensures video.views == 0 && video.likes == 0 && video.dislikes == 0
  {
    Video(id, Created, "", 0, creator.id, "Untitled Video", "", Public, 0, 0, 0)
  }

  /**
    The condition `FetchAllVideos` passes as a struct: status `COMPLETE` and
    visibility `PUBLIC`. Both are non-zero codes, so neither is dropped as a
    zero value and both constrain the query.
  */
  predicate Listed(video: Video)
    ensures Listed(video) <==> video.status.Code() == 3 && video.visibility.Code() == 2
  {
    video.status == Complete && video.visibility == Public
  }

  /** A new video is its creator's, and no other user's. */
  lemma NewVideoCreator(id: Int64, creator: User, other: User)
    requires other.id != creator.id
    ensures NewVideoRow(id, creator).IsCreator(creator)
    ensures !NewVideoRow(id, creator).IsCreator(other)
  {
  }

  /** A new video is not listed: it is `CREATED`, not `COMPLETE`. */
  lemma NewVideoNotListed(id: Int64, creator: User)
    ensures !Listed(NewVideoRow(id, creator))
    ensures Listed(NewVideoRow(id, creator).(status := Complete))
  {
  }

  /** Strictly descending by id, so in particular no id twice. */
  predicate DescendingIds(videos: seq<Video>) {
    forall i, j :: 0 <= i < j < |videos| ==> videos[i].id > videos[j].id
  }

  /**
    A strictly descending sequence is fixed by its elements: two of them with
    the same elements are equal. So `FetchAllVideos`'s contract determines its
    answer.
  */
  lemma {:induction false} DescendingUnique(a: seq<Video>, b: seq<Video>)
    requires DescendingIds(a) && DescendingIds(b)
    requires forall v :: v in a <==> v in b
    ensures a == b
  {
    assert a == [] <==> b == [] by {
      if a != [] {
        assert a[0] in b;
      }
      if b != [] {
        assert b[0] in a;
      }
    }
    if a != [] {
      assert a[0] == b[0] by {
        assert a[0] in b && b[0] in a;
        var i :| 0 <= i < |b| && b[i] == a[0];
        var j :| 0 <= j < |a| && a[j] == b[0];
        assert b[0].id >= a[0].id && a[0].id >= b[0].id;
        assert i == 0;
      }
      DescendingTail(a);
      DescendingTail(b);
      DescendingUnique(a[1..], b[1..]);
      assert a == [a[0]] + a[1..] && b == [b[0]] + b[1..];
    }
  }

  /** The tail of a descending sequence is descending and holds every element but the head. */
  lemma DescendingTail(a: seq<Video>)
    requires DescendingIds(a) && a != []
    ensures DescendingIds(a[1..])
    ensures forall v :: v in a[1..] <==> v in a && v != a[0]
  {
    assert a == [a[0]] + a[1..];
    forall v | v in a[1..]
      ensures v != a[0]
    {
      var i :| 0 <= i < |a[1..]| && a[1..][i] == v;
      assert a[i + 1] == v;
    }
  }

  /** The failures of a gorm write or lookup that the model keeps. */
  datatype DbError = RecordNotFound | DuplicateKey

  /** The `videos` table. */
  class VideoTable {
    var rows: map<Int64, Video>

    /** Every row is stored under its own id. */
    ghost predicate Valid()
      reads this
    {
      forall id :: id in rows ==> rows[id].id == id
    }

    constructor ()
      ensures Valid() && rows == map[]
    {
      rows := map[];
    }

    /**
      `NewVideo(creator)` with the generated id as a parameter: builds the
      default row and inserts it. The insert fails on a key already taken,
      leaving the table unchanged; the row is returned either way.
    */
    method NewVideo(creator: User, id: Int64) returns (video: Video, err: Option<DbError>)
      requires Valid()
      modifies this
      ensures Valid()
      ensures video == NewVideoRow(id, creator)
      ensures id !in old(rows) ==> err == None && rows == old(rows)[id := video]
      ensures id in old(rows) ==> err == Some(DuplicateKey) && rows == old(rows)
    {
      video := NewVideoRow(id, creator);
      if id in rows {
        err := Some(DuplicateKey);
      } else {
        rows := rows[id := video];
        err := None;
      }
    }

    /** The row whose primary key is `id`, or `RecordNotFound`. */
    method FetchVideo(id: SnowflakeId) returns (r: Result<Video, DbError>)
      requires Valid()
      ensures r.Success? <==> id.value in rows
      ensures r.Success? ==> r.value == rows[id.value] && r.value.id == id.value
      ensures r.Failure? ==> r.error == RecordNotFound
    {
      if id.value in rows {
        r := Success(rows[id.value]);
      } else {
        r := Failure(RecordNotFound);
      }
    }

    /**
      Every `COMPLETE` and `PUBLIC` row, in descending order of id: the query
      orders by `id DESC`, modelled as repeatedly taking the largest remaining key.
    */
    method FetchAllVideos() returns (videos: seq<Video>)
      requires Valid()
      ensures DescendingIds(videos)
      ensures forall v :: v in videos <==> v.id in rows && rows[v.id] == v && Listed(v)
    {
      var remaining := set id | id in rows && Listed(rows[id]);
      videos := [];
      while remaining != {}
        decreases |remaining|
        invariant remaining <= rows.Keys
        invariant forall id :: id in remaining ==> Listed(rows[id])
        invariant DescendingIds(videos)
        invariant forall i, id :: 0 <= i < |videos| && id in remaining ==> videos[i].id > id
        invariant forall v :: v in videos ==> v.id in rows && rows[v.id] == v && Listed(v)
        invariant forall id :: id in rows && Listed(rows[id]) ==> id in remaining || rows[id] in videos
      {
        var top := LargestKey(remaining);
        var row := rows[top];
        DescendingAppend(videos, row);
        videos := videos + [row];
        remaining := remaining - {top};
      }
    }

    /**
      `Save` writes every field of the row under its id: an update when the key
      exists, an insert otherwise. Other rows are untouched.
    */
    method Save(video: Video)
      requires Valid()
      modifies this
      ensures Valid()
      ensures rows == old(rows)[video.id := video]
    {
      rows := rows[video.id := video];
    }
  }

  /** Appending a row below every id so far keeps the order descending. */
  lemma DescendingAppend(videos: seq<Video>, row: Video)
    requires DescendingIds(videos)
    requires forall i :: 0 <= i < |videos| ==> videos[i].id > row.id
    ensures DescendingIds(videos + [row])
  {
    var longer := videos + [row];
    forall i, j | 0 <= i < j < |longer|
      ensures longer[i].id > longer[j].id
    {
      assert longer[i] == videos[i];
    }
  }

  /** The largest key of a non-empty set of keys. */
  method LargestKey(keys: set<Int64>) returns (top: Int64)
    requires keys != {}
    ensures top in keys && forall k :: k in keys ==> k <= top
  {
    top :| top in keys;
    var unseen := keys - {top};
    while unseen != {}
      decreases |unseen|
      invariant unseen <= keys && top in keys
      invariant forall k :: k in keys && k !in unseen ==> k <= top
    {
      var k :| k in unseen;
      if k > top {
        top := k;
      }
      unseen := unseen - {k};
    }
  }
}

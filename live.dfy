/**
  The live-room listing and the streaming header check of the Go backend
  (package `controllers`).

  `GetLiveRooms` walks the registry of rooms, keeps the visible ones, projects
  each to a `LiveRoomInfo` and sorts the list: most participants first, and
  among equal participant counts the room created earlier (in Unix seconds)
  first. The registry is a concurrent map whose iteration order is
  unspecified; the model takes the rooms in the order the iteration yields
  them, as a sequence.

  A room's id is rendered with the id type's `String()`, taken to be its
  decimal form. The creator is projected by `getUserInfo`, which is not part
  of this model and is a parameter here.
*/
module Live {
  import opened Wrappers
  import opened Decimal
  import opened Strings
  import opened Sorting
  import opened Integers

  /** The parts of a room the listing reads; `createdAt` is in Unix seconds. */
  datatype Room<User> = Room(
    id: Int64, name: string, creator: User, createdAt: int, participants: int, visible: bool)

  /** The JSON view of a room. */
  datatype LiveRoomInfo<Info> = LiveRoomInfo(
    id: string, name: string, creator: Info, createdAt: int, participants: int)

  /**
    `getLiveRoomInfo`: the room's id as a string, its creator through
    `getUserInfo`, and its name, creation time and participant count unchanged.
  */
  function GetLiveRoomInfo<User, Info>(room: Room<User>, getUserInfo: User -> Info): (info: LiveRoomInfo<Info>)
    ensures info.name == room.name && info.createdAt == room.createdAt
    ensures info.participants == room.participants && info.creator == getUserInfo(room.creator)
    ensures info.id == IntToString(room.id)
  {
    LiveRoomInfo(IntToString(room.id), room.name, getUserInfo(room.creator), room.createdAt, room.participants)
  }

  /** Go's `cmp.Compare` on integers: -1, 0 or +1. */
  function Compare(x: int, y: int): (c: int)
    ensures c == -1 || c == 0 || c == 1
    ensures c < 0 <==> x < y
    ensures c == 0 <==> x == y
  {
    if x < y then -1 else if x > y then 1 else 0
  }

  /**
    The comparison handed to `slices.SortFunc`: participants compared in reverse,
    ties broken by creation second.
  */
  function CompareRooms<Info>(a: LiveRoomInfo<Info>, b: LiveRoomInfo<Info>): (c: int)
    ensures c == -1 || c == 0 || c == 1
    ensures c < 0 <==>
      a.participants > b.participants || (a.participants == b.participants && a.createdAt < b.createdAt)
    ensures c == 0 <==> a.participants == b.participants && a.createdAt == b.createdAt
  {
    var comparison := Compare(b.participants, a.participants);
    if comparison == 0 then Compare(a.createdAt, b.createdAt) else comparison
  }

  /** `a` may come before `b` in the sorted list. */
  predicate ListedBefore<Info>(a: LiveRoomInfo<Info>, b: LiveRoomInfo<Info>) {
    CompareRooms(a, b) <= 0
  }

  /**
    The comparison orders rooms by participants descending, then by creation
    ascending, and it is antisymmetric; so `ListedBefore` is a total preorder a
    sort can use.
  */
  lemma CompareRoomsOrder<Info>(a: LiveRoomInfo<Info>, b: LiveRoomInfo<Info>)
    ensures ListedBefore(a, b) <==>
      a.participants > b.participants
      || (a.participants == b.participants && a.createdAt <= b.createdAt)
    ensures CompareRooms(a, b) == -CompareRooms(b, a)
  {
  }

  lemma ListedBeforeTotalPreorder<Info(!new)>()
    ensures TotalPreorder((a: LiveRoomInfo<Info>, b: LiveRoomInfo<Info>) => ListedBefore(a, b))
  {
    forall a: LiveRoomInfo<Info>, b: LiveRoomInfo<Info>
      ensures ListedBefore(a, b) || ListedBefore(b, a)
    {
      CompareRoomsOrder(a, b);
    }
    forall a: LiveRoomInfo<Info>, b: LiveRoomInfo<Info>, c: LiveRoomInfo<Info>
      | ListedBefore(a, b) && ListedBefore(b, c)
      ensures ListedBefore(a, c)
    {
      CompareRoomsOrder(a, b);
      CompareRoomsOrder(b, c);
      CompareRoomsOrder(a, c);
    }
  }

  /** The infos of the visible rooms, in iteration order. */
  function VisibleInfos<User, Info>(rooms: seq<Room<User>>, getUserInfo: User -> Info): (infos: seq<LiveRoomInfo<Info>>)
    ensures |infos| <= |rooms|
  {
    if rooms == [] then []
    else
      var init := VisibleInfos(rooms[..|rooms| - 1], getUserInfo);
      var room := rooms[|rooms| - 1];
      if room.visible then init + [GetLiveRoomInfo(room, getUserInfo)] else init
  }

  /** An info is listed exactly when some visible room projects to it. */
  lemma {:induction false} VisibleInfosMembers<User, Info>(rooms: seq<Room<User>>, getUserInfo: User -> Info)
    ensures forall info :: info in VisibleInfos(rooms, getUserInfo) <==>
      exists room :: room in rooms && room.visible && GetLiveRoomInfo(room, getUserInfo) == info
  {
    if rooms != [] {
      var prefix := rooms[..|rooms| - 1];
      var last := rooms[|rooms| - 1];
      var init := VisibleInfos(prefix, getUserInfo);
      VisibleInfosMembers(prefix, getUserInfo);
      assert rooms == prefix + [last];
      forall info
        ensures info in VisibleInfos(rooms, getUserInfo) <==>
          exists room :: room in rooms && room.visible && GetLiveRoomInfo(room, getUserInfo) == info
      {
        if info in init {
          var room :| room in prefix && room.visible && GetLiveRoomInfo(room, getUserInfo) == info;
          assert room in rooms;
        }
        if last.visible && info == GetLiveRoomInfo(last, getUserInfo) {
          assert last in rooms;
        }
        if exists room :: room in rooms && room.visible && GetLiveRoomInfo(room, getUserInfo) == info {
          var room :| room in rooms && room.visible && GetLiveRoomInfo(room, getUserInfo) == info;
          if room != last {
            assert room in prefix;
          }
        }
      }
    }
  }

  /** Room ids are the registry's keys: no id twice. */
  predicate DistinctIds<User>(rooms: seq<Room<User>>) {
    forall i, j :: 0 <= i < j < |rooms| ==> rooms[i].id != rooms[j].id
  }

  /** Rooms with different ids have infos with different ids. */
  lemma InfoIdsDiffer<User, Info>(a: Room<User>, b: Room<User>, getUserInfo: User -> Info)
    requires a.id != b.id
    ensures GetLiveRoomInfo(a, getUserInfo).id != GetLiveRoomInfo(b, getUserInfo).id
  {
    if IntToString(a.id) == IntToString(b.id) {
      IntToStringInjective(a.id, b.id);
    }
  }

  /** A room whose id no listed room has is not in the listing. */
  lemma AbsentRoomNotListed<User, Info>(rooms: seq<Room<User>>, getUserInfo: User -> Info, r: Room<User>)
    requires forall room :: room in rooms ==> room.id != r.id
    ensures multiset(VisibleInfos(rooms, getUserInfo))[GetLiveRoomInfo(r, getUserInfo)] == 0
  {
    VisibleInfosMembers(rooms, getUserInfo);
    var target := GetLiveRoomInfo(r, getUserInfo);
    if target in VisibleInfos(rooms, getUserInfo) {
      var room :| room in rooms && room.visible && GetLiveRoomInfo(room, getUserInfo) == target;
      InfoIdsDiffer(room, r, getUserInfo);
    }
  }

  /** How often an info is listed: its count among the earlier rooms, plus one if the last room is visible and projects to it. */
  lemma VisibleInfosLastCount<User, Info>(rooms: seq<Room<User>>, getUserInfo: User -> Info, target: LiveRoomInfo<Info>)
    requires rooms != []
    ensures var last := rooms[|rooms| - 1];
      multiset(VisibleInfos(rooms, getUserInfo))[target]
        == multiset(VisibleInfos(rooms[..|rooms| - 1], getUserInfo))[target]
           + if last.visible && GetLiveRoomInfo(last, getUserInfo) == target then 1 else 0
  {
    var init := VisibleInfos(rooms[..|rooms| - 1], getUserInfo);
    var lastInfo := GetLiveRoomInfo(rooms[|rooms| - 1], getUserInfo);
    assert multiset(init + [lastInfo]) == multiset(init) + multiset{lastInfo};
  }

  /**
    With distinct room ids, every visible room is listed exactly once and every
    hidden room not at all.
  */
  lemma {:induction false} VisibleInfosOnce<User, Info>(rooms: seq<Room<User>>, getUserInfo: User -> Info, k: int)
    requires DistinctIds(rooms) && 0 <= k < |rooms|
    ensures multiset(VisibleInfos(rooms, getUserInfo))[GetLiveRoomInfo(rooms[k], getUserInfo)]
      == if rooms[k].visible then 1 else 0
    decreases |rooms|, 1
  {
    if k < |rooms| - 1 {
      EarlierRoomOnce(rooms, getUserInfo, k);
    } else {
      LastRoomOnce(rooms, getUserInfo);
    }
  }

  /** The step of `VisibleInfosOnce` for a room before the last one. */
  lemma {:induction false} EarlierRoomOnce<User, Info>(rooms: seq<Room<User>>, getUserInfo: User -> Info, k: int)
    requires DistinctIds(rooms) && 0 <= k < |rooms| - 1
    ensures multiset(VisibleInfos(rooms, getUserInfo))[GetLiveRoomInfo(rooms[k], getUserInfo)]
      == if rooms[k].visible then 1 else 0
    decreases |rooms|, 0
  {
    var prefix := rooms[..|rooms| - 1];
    var last := rooms[|rooms| - 1];
    var target := GetLiveRoomInfo(rooms[k], getUserInfo);
    assert multiset(VisibleInfos(prefix, getUserInfo))[target] == if rooms[k].visible then 1 else 0 by {
      DistinctIdsPrefix(rooms);
      assert prefix[k] == rooms[k];
      VisibleInfosOnce(prefix, getUserInfo, k);
    }
    assert GetLiveRoomInfo(last, getUserInfo) != target by {
      InfoIdsDiffer(last, rooms[k], getUserInfo);
    }
    VisibleInfosLastCount(rooms, getUserInfo, target);
  }

  lemma DistinctIdsPrefix<User>(rooms: seq<Room<User>>)
    requires DistinctIds(rooms) && rooms != []
    ensures DistinctIds(rooms[..|rooms| - 1])
  {
    var prefix := rooms[..|rooms| - 1];
    forall i, j | 0 <= i < j < |prefix|
      ensures prefix[i].id != prefix[j].id
    {
      assert prefix[i] == rooms[i] && prefix[j] == rooms[j];
    }
  }

  /** With distinct ids, the last room is listed once if visible, else not at all. */
  lemma LastRoomOnce<User, Info>(rooms: seq<Room<User>>, getUserInfo: User -> Info)
    requires DistinctIds(rooms) && rooms != []
    ensures var last := rooms[|rooms| - 1];
      multiset(VisibleInfos(rooms, getUserInfo))[GetLiveRoomInfo(last, getUserInfo)]
        == if last.visible then 1 else 0
  {
    var prefix := rooms[..|rooms| - 1];
    var last := rooms[|rooms| - 1];
    assert forall room :: room in prefix ==> room.id != last.id by {
      forall room | room in prefix
        ensures room.id != last.id
      {
        var i :| 0 <= i < |prefix| && prefix[i] == room;
        assert rooms[i] == room;
      }
    }
    AbsentRoomNotListed(prefix, getUserInfo, last);
    VisibleInfosLastCount(rooms, getUserInfo, GetLiveRoomInfo(last, getUserInfo));
  }

  /**
    `GetLiveRooms`: appends the info of every visible room while iterating the
    registry, then sorts the list with the room comparison. The answer holds
    exactly the visible rooms' infos, ordered by `ListedBefore`.
  */
  method GetLiveRooms<User, Info(!new)>(rooms: seq<Room<User>>, getUserInfo: User -> Info)
    returns (liveRoomInfos: seq<LiveRoomInfo<Info>>)
    ensures multiset(liveRoomInfos) == multiset(VisibleInfos(rooms, getUserInfo))
    ensures SortedBy(liveRoomInfos, ListedBefore)
  {
    liveRoomInfos := [];
    for i := 0 to |rooms|
      invariant liveRoomInfos == VisibleInfos(rooms[..i], getUserInfo)
    {
      assert rooms[..i + 1][..i] == rooms[..i];
      var room := rooms[i];
      if !room.visible {
        continue;
      }
      liveRoomInfos := liveRoomInfos + [GetLiveRoomInfo(room, getUserInfo)];
    }
    assert rooms[..|rooms|] == rooms;
    ListedBeforeTotalPreorder<Info>();
    liveRoomInfos := InsertionSort(liveRoomInfos, ListedBefore);
  }

  /**
    A list sorted by `ListedBefore` has participants non-increasing, and equal
    participants in non-decreasing creation second. Only this is promised:
    `slices.SortFunc` is not stable, so fully tied rooms come in any order.
  */
  lemma SortedRoomsOrder<Info>(infos: seq<LiveRoomInfo<Info>>, i: int, j: int)
    requires SortedBy(infos, ListedBefore)
    requires 0 <= i < j < |infos|
    ensures infos[i].participants >= infos[j].participants
    ensures infos[i].participants == infos[j].participants ==> infos[i].createdAt <= infos[j].createdAt
  {
    CompareRoomsOrder(infos[i], infos[j]);
  }

  // ---------------------------------------------------------------------
  // ExtractStreamingUserMiddleware

  datatype AuthError = InvalidBearerFormat

  /**
    The shape check on the `Authorization` header: split on " ", exactly two
    parts, the token is the second. The first part is not looked at. Verifying
    the token (`getUserId`) is not part of this model.
  */
  function StreamingToken(header: string): (r: Result<string, AuthError>)
    ensures r.Success? ==> ' ' !in r.value
  {
    var auth := Split(header, ' ');
    SplitPartsFree(header, ' ');
    if |auth| != 2 then Failure(InvalidBearerFormat) else Success(auth[1])
  }

  /** The header is accepted exactly when it holds one space. */
  lemma StreamingTokenAccepts(header: string)
    ensures StreamingToken(header).Success? <==> CountOf(header, ' ') == 1
  {
    SplitLength(header, ' ');
  }

  /**
    Any first word, a space and a space-free token give that token back,
    whatever the first word is (it need not be "Bearer"), even an empty token.
  */
  lemma StreamingTokenOf(scheme: string, token: string)
    requires ' ' !in scheme && ' ' !in token
    ensures StreamingToken(scheme + " " + token) == Success(token)
  {
    var parts := [scheme, token];
    SplitJoin(parts, ' ');
    assert Join(parts, ' ') == scheme + " " + token by {
      assert Join(parts[1..], ' ') == token;
    }
  }
}

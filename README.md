# Streamfox core, modelled in Dafny

This project models the rule-bearing core of Streamfox, a video hosting and
live streaming server, and proves properties of it. It covers five parts,
one Dafny module each:

- `Persistence` (`persistence.dfy`): the C# asset store `DiskVideoLoader`.
  It sits over four injected collaborators: a file lister, a read-opener for
  videos, a read-opener for thumbnails and an existence checker for
  thumbnails.
  - Each collaborator is modelled by what it observes: a list of paths, a map
    from name to bytes, a set of names.
  - The loader is a value holding the four collaborators, and its operations
    are functions of it.
  - `ListLabels` takes the file name of each listed path and parses it with
    `long.Parse`. The model writes out the default integer grammar: white
    space, an optional sign, digits, white space, and overflow outside the
    `long` range. The values are then sorted ascending and wrapped as ids.
  - `ListLabels` fails as a whole on the first name that does not parse.
- `Schema` (`schema.dfy`): the Entity Framework model of `Tags`, `Videos` and
  the `VideoTag` junction.
  - It is a class holding both tables as maps from key to row, and the
    junction as a sequence.
  - The class invariant is the schema: generated keys below the identity
    counters, no duplicate (VideoId, TagId) pair, and both required foreign
    keys naming existing rows.
  - Inserts and deletes keep the invariant. Deletes cascade to the junction,
    which a loop filters.
  - `Tag.Value` is required, so it is a `string`. `Video.Name` is nullable, so
    it is an `Option<string>`.
- `Models` (`models.dfy`): the Go video model.
  - The `VideoStatus` and `Visibility` enumerations with their `iota` codes.
  - The row `NewVideo` builds.
  - `IsCreator` and `IdSnowflake`.
  - The `videos` table as a class over a map from primary key to row, with
    `NewVideo`, `FetchVideo`, `FetchAllVideos` and `Save`.
- `Live` (`live.dfy`): the Go live-room listing and the streaming
  Authorization header check.
  - `GetLiveRooms` is a loop that keeps the visible rooms' infos, followed by
    a sort with the room comparison.
  - `getLiveRoomInfo` is the projection of a room to its JSON view.
  - The middleware splits the header on `" "` and requires exactly two parts.
- `Config` (`config.dfy`): the Rust configuration's dotted-decimal rendering
  of an IPv4 `[u8; 4]`, and the Postgres connection string.

Shared helper modules:

- `Wrappers`: `Option` and `Result`.
- `Integers`: the 8-, 32- and 64-bit signed ranges the stored ids and counters
  use.
- `Decimal`: decimal rendering of integers and the value of a digit string.
- `Strings`: Go's `strings.Split`, `join` and the split at the first separator.
- `Sorting`: a sort by a total preorder. Only sorted and permutation are
  claimed of it, which is all that `OrderBy` and `slices.SortFunc` promise
  here.

Where the code does something a reader might not expect, the model follows
the code:

- `ListLabels` does not deduplicate: "5" and "05" list as id 5 twice.
- `ListLabels` accepts signed names, so "-3" lists as id -3.
- Inserting a `VideoTag` pair that is already present is refused by the
  composite key and leaves the junction unchanged. It is not a silent
  success.
- The streaming header check accepts an empty token ("Bearer "), and it does
  not look at the first word at all.

## Model

| member | source | states |
|---|---|---|
| Persistence.FileName | backend/Streamfox.Server/Persistence/DiskVideoLoader.cs:42 | `Path.GetFileName`: the result is the longest separator-free suffix of the path, preceded by a separator whenever it is shorter than the path |
| Persistence.FileNameOfPath | backend/Streamfox.Server/Persistence/DiskVideoLoader.cs:42 | a directory prefix ending in a separator is stripped and a separator-free name is kept whole |
| Persistence.ParseLongAccepts | backend/Streamfox.Server/Persistence/DiskVideoLoader.cs:43 | `long.Parse` accepts white space, an optional sign, digits and white space, giving the signed digit value, or overflow outside the `long` range |
| Persistence.ParseLong | backend/Streamfox.Server/Persistence/DiskVideoLoader.cs:43 | `long.Parse`: empty text and text of white space alone are format errors |
| Persistence.ParseLongRejects | backend/Streamfox.Server/Persistence/DiskVideoLoader.cs:43 | a format error exactly when the text is outside the integer grammar (white space, an optional sign, digits, white space), so that grammar is all that parses or overflows |
| Persistence.ParseLongOfToString | backend/Streamfox.Server/Persistence/DiskVideoLoader.cs:43 | parsing an id's decimal name gives the id back |
| Persistence.ToStringInjective | backend/Streamfox.Server/Persistence/DiskVideoLoader.cs:31 | distinct ids have distinct file names |
| Persistence.LabelOf | backend/Streamfox.Server/Persistence/DiskVideoLoader.cs:42-43 | the label of a path is the parse of its file name; a path that is empty or ends in a separator has no file name and is a format error |
| Persistence.CollectLabels | backend/Streamfox.Server/Persistence/DiskVideoLoader.cs:43 | success exactly when every label parsed, with the values in listing order; otherwise the error is the first failing label's parse failure, tagged with its name (see Left out) |
| Persistence.SortAscending | backend/Streamfox.Server/Persistence/DiskVideoLoader.cs:44 | `OrderBy(id => id)`: the result is ascending and a permutation of the input |
| Persistence.DiskVideoLoader.ListLabels | backend/Streamfox.Server/Persistence/DiskVideoLoader.cs:39-47 | on success, one id per listed file, in ascending order |
| Persistence.ListLabelsSucceedsIff | backend/Streamfox.Server/Persistence/DiskVideoLoader.cs:39-47 | `ListLabels` succeeds if and only if every listed file name parses |
| Persistence.ListLabelsReadsOnlyLister | backend/Streamfox.Server/Persistence/DiskVideoLoader.cs:39-47 | the listing depends on the lister alone, not on the openers or the checker |
| Persistence.ListLabelsSortedPermutation | backend/Streamfox.Server/Persistence/DiskVideoLoader.cs:41-46 | on success there is one id per listed file, the ids are ascending, and their values are a permutation of the parsed file names |
| Persistence.ListLabelsOfParsed | backend/Streamfox.Server/Persistence/DiskVideoLoader.cs:41-46 | when every name parses, the result is the sorted label values wrapped as ids |
| Persistence.ListLabelsFailsOnFirstCorrupt | backend/Streamfox.Server/Persistence/DiskVideoLoader.cs:43 | on failure the error is the parse failure of a listed file name that does not parse while every earlier one does; the name in the error is the model's record of it (see Left out) |
| Persistence.ListLabelsRecoversIds | backend/Streamfox.Server/Persistence/DiskVideoLoader.cs:41-46 | listing files named by ids under any directory gives those ids back, ascending, as a permutation |
| Persistence.LabelOfIdPath | backend/Streamfox.Server/Persistence/DiskVideoLoader.cs:42-43 | the label of an id's name under a directory is that id |
| Persistence.ListLabelsKeepsDuplicates | backend/Streamfox.Server/Persistence/DiskVideoLoader.cs:41-46 | "n" and "0n" list as the id n twice: nothing is deduplicated |
| Persistence.LabelOfPaddedPath | backend/Streamfox.Server/Persistence/DiskVideoLoader.cs:42-43 | a name with a leading zero still parses to its value |
| Persistence.DiskVideoLoader.LoadVideo | backend/Streamfox.Server/Persistence/DiskVideoLoader.cs:29-32 | succeeds exactly when the video namespace holds a file under the id's name, giving its contents; otherwise fails with that name |
| Persistence.DiskVideoLoader.LoadThumbnail | backend/Streamfox.Server/Persistence/DiskVideoLoader.cs:34-37 | succeeds exactly when the thumbnail namespace holds a file under the id's name, giving its contents; otherwise fails with that name |
| Persistence.LoadVideoOpensItsName | backend/Streamfox.Server/Persistence/DiskVideoLoader.cs:29-32 | `LoadVideo` opens exactly the id's name through the video opener; it fails with that name when absent and ignores the thumbnail opener |
| Persistence.LoadThumbnailOpensItsName | backend/Streamfox.Server/Persistence/DiskVideoLoader.cs:34-37 | `LoadThumbnail` opens exactly the id's name through the thumbnail opener; it fails with that name when absent and ignores the video opener |
| Persistence.StoringOneIdLeavesOthers | backend/Streamfox.Server/Persistence/DiskVideoLoader.cs:29-37 | storing a file under one id's name changes what that id loads and nothing another id loads |
| Persistence.DiskVideoLoader.ThumbnailExists | backend/Streamfox.Server/Persistence/DiskVideoLoader.cs:49-52 | when the checker and the thumbnail opener observe the same files, true exactly when `LoadThumbnail` would succeed |
| Persistence.ThumbnailExistsTracksChecker | backend/Streamfox.Server/Persistence/DiskVideoLoader.cs:49-52 | true exactly when the checker holds the id's name, whatever the lister and the two openers hold, so no file is opened; adding the name makes it true and leaves every other id's answer unchanged; it agrees with `LoadThumbnail` when both observe the same files |
| Schema.Unreferencing | backend/Streamfox.Server/Migrations/20201108131537_VideosAndTags.Designer.cs:80-90 | the rows a cascade keeps are exactly the rows whose key in the column differs from the deleted id |
| Schema.UnreferencingDistinct | backend/Streamfox.Server/Migrations/20201108131537_VideosAndTags.Designer.cs:71 | a cascade keeps the junction free of duplicate pairs |
| Schema.UnreferencingNoMatch | backend/Streamfox.Server/Migrations/20201108131537_VideosAndTags.Designer.cs:80-90 | a cascade for an id that no row references changes nothing |
| Schema.FindRow | backend/Streamfox.Server/Migrations/20201108131537_VideosAndTags.Designer.cs:71 | the first position of a pair in the junction, which is below the length exactly when the pair is present |
| Schema.KeepUnreferencing | backend/Streamfox.Server/Migrations/20201108131537_VideosAndTags.Designer.cs:80-90 | the filtering loop computes exactly `Unreferencing` |
| Schema.RemoveAtDistinct | backend/Streamfox.Server/Migrations/20201108131537_VideosAndTags.Designer.cs:71 | removing one row of a duplicate-free junction removes exactly that pair and keeps it duplicate-free |
| Schema.VideoDatabaseContext.constructor | backend/Streamfox.Server/Migrations/20201108131537_VideosAndTags.Designer.cs:23-76 | the empty database satisfies the schema and both identity sequences start at 1 |
| Schema.VideoDatabaseContext.AddTag | backend/Streamfox.Server/Migrations/20201108131537_VideosAndTags.Designer.cs:25-34 | a tag is stored under the next generated key, which no tag has; an exhausted sequence refuses the insert; nothing else changes |
| Schema.VideoDatabaseContext.AddVideo | backend/Streamfox.Server/Migrations/20201108131537_VideosAndTags.Designer.cs:41-58 | a video is stored under the next generated key, which no video has; an exhausted sequence refuses the insert; nothing else changes |
| Schema.VideoDatabaseContext.HasVideoTag | backend/Streamfox.Server/Migrations/20201108131537_VideosAndTags.Designer.cs:65-71 | true exactly when the pair is in the junction |
| Schema.VideoDatabaseContext.AddVideoTag | backend/Streamfox.Server/Migrations/20201108131537_VideosAndTags.Designer.cs:71-90 | a missing video, a missing tag and a present pair refuse the insert in that order and change nothing; otherwise the pair is appended |
| Schema.VideoDatabaseContext.RemoveVideoTag | backend/Streamfox.Server/Migrations/20201108131537_VideosAndTags.Designer.cs:71 | removes exactly that pair, reports whether it was there, and keeps the schema |
| Schema.VideoDatabaseContext.DeleteTag | backend/Streamfox.Server/Migrations/20201108131537_VideosAndTags.Designer.cs:80-84 | removes the tag and every junction row of that tag; videos and the other rows are unchanged; a missing tag changes nothing |
| Schema.VideoDatabaseContext.DeleteVideo | backend/Streamfox.Server/Migrations/20201108131537_VideosAndTags.Designer.cs:86-90 | removes the video and every junction row of that video; tags and the other rows are unchanged; a missing video changes nothing |
| Schema.VideoDatabaseContext.Cascade | backend/Streamfox.Server/Migrations/20201108131537_VideosAndTags.Designer.cs:80-90 | the cascade step leaves the junction as `Unreferencing` of the old one and restores the schema |
| Models.StatusOfCode | backend/models/video.go:7-14 | a stored code decodes to a status exactly when it is 0 to 3 |
| Models.VisibilityOfCode | backend/models/video.go:16-22 | a stored code decodes to a visibility exactly when it is 0 to 2 |
| Models.StatusCodes | backend/models/video.go:9-14 | `CREATED`=0, `UPLOADING`=1, `PROCESSING`=2, `COMPLETE`=3 are distinct and decode back |
| Models.VisibilityCodes | backend/models/video.go:18-22 | `PRIVATE`=0, `UNLISTED`=1, `PUBLIC`=2 are distinct and decode back |
| Models.Video.IdSnowflake | backend/models/video.go:86-88 | the snowflake holds the row's id |
| Models.NewVideoRow | backend/models/video.go:52-64 | status `CREATED`, name "Untitled Video", visibility `PUBLIC`, the creator's id, and zero views, likes, dislikes and duration |
| Models.NewVideoCreator | backend/models/video.go:90-92 | a new video is its creator's and no other user's |
| Models.Listed | backend/models/video.go:81 | the `FetchAllVideos` condition holds exactly when the stored status code is 3 (`COMPLETE`) and the visibility code 2 (`PUBLIC`) |
| Models.NewVideoNotListed | backend/models/video.go:81 | a new video is not listed until it is `COMPLETE` |
| Models.DescendingUnique | backend/models/video.go:80 | two strictly descending lists with the same elements are equal, so `FetchAllVideos`'s contract fixes its answer |
| Models.DescendingAppend | backend/models/video.go:80 | appending a row below every id so far keeps the list descending |
| Models.VideoTable.constructor | backend/models/video.go:44-49 | an empty table |
| Models.VideoTable.NewVideo | backend/models/video.go:51-69 | the default row is built and inserted under the given id; a taken key is a duplicate-key error and leaves the table unchanged |
| Models.VideoTable.FetchVideo | backend/models/video.go:71-75 | the row whose primary key is the id, or `RecordNotFound` exactly when there is none |
| Models.VideoTable.FetchAllVideos | backend/models/video.go:77-84 | strictly descending ids, and a row is returned exactly when it is in the table and is `COMPLETE` and `PUBLIC` |
| Models.VideoTable.Save | backend/models/video.go:94-96 | upsert: the row is stored under its id and other rows are untouched |
| Models.LargestKey | backend/models/video.go:80 | the largest of a non-empty set of keys |
| Live.GetLiveRoomInfo | backend/controllers/live.go:53-61 | the id as its decimal string, the creator through `getUserInfo`, and name, creation time and participants copied unchanged |
| Live.Compare | backend/controllers/live.go:76-79 | `cmp.Compare`: negative, zero or positive as the first argument is smaller, equal or larger |
| Live.CompareRoomsOrder | backend/controllers/live.go:75-83 | a room comes first when it has more participants, or as many and an earlier creation second; the comparison is antisymmetric |
| Live.ListedBeforeTotalPreorder | backend/controllers/live.go:75-83 | the comparison is a total preorder, so sorting by it is well defined |
| Live.CompareRooms | backend/controllers/live.go:75-83 | -1, 0 or 1; negative exactly when the first room has more participants, or as many and an earlier creation second; zero exactly when both agree |
| Live.VisibleInfos | backend/controllers/live.go:65-73 | the infos of the visible rooms, in iteration order; never more than there are rooms |
| Live.VisibleInfosMembers | backend/controllers/live.go:65-73 | an info is collected exactly when some visible room projects to it |
| Live.VisibleInfosOnce | backend/controllers/live.go:65-73 | with distinct room ids, each visible room's info is collected exactly once and each hidden room's not at all |
| Live.InfoIdsDiffer | backend/controllers/live.go:55 | rooms with different ids have infos with different ids |
| Live.GetLiveRooms | backend/controllers/live.go:63-86 | the answer is a permutation of the visible rooms' infos and is sorted by the room comparison |
| Live.SortedRoomsOrder | backend/controllers/live.go:75-83 | in the answer participants never increase, and equal participants come in non-decreasing creation second |
| Live.StreamingToken | backend/controllers/live.go:128-134 | an accepted token never holds a space |
| Live.StreamingTokenAccepts | backend/controllers/live.go:128-132 | the header passes the shape check exactly when it holds one space |
| Live.StreamingTokenOf | backend/controllers/live.go:128-134 | any first word, a space and a space-free token give that token back, even when the first word is not "Bearer" or the token is empty |
| Strings.Split | backend/controllers/live.go:128 | `strings.Split` always gives at least one part, even for an empty header |
| Strings.SplitLength | backend/controllers/live.go:128 | `strings.Split` on one character gives one more part than there are separators |
| Strings.SplitPartsFree | backend/controllers/live.go:128 | no part of a split holds the separator |
| Strings.JoinSplit | backend/controllers/live.go:128 | joining the parts of a split with the same separator gives the string back |
| Strings.SplitFirst | backend-rs/backend/src/config.rs:42 | the cut at the first separator exists exactly when the separator occurs; the part before it is free of it |
| Strings.SplitJoin | backend-rs/backend/src/config.rs:11 | joining separator-free parts and splitting again gives the parts back |
| Decimal.NatToStringCanonical | backend-rs/backend/src/config.rs:11 | a rendered number has digits only and no leading zero |
| Decimal.DigitsValueOfNatToString | backend-rs/backend/src/config.rs:11 | the value of a rendered number is the number |
| Decimal.NatToStringOfCanonical | backend-rs/backend/src/config.rs:11 | rendering the value of a canonical digit string gives the string back |
| Decimal.IntToStringInjective | backend/controllers/live.go:55 | distinct integers render differently |
| Config.OctetString | backend-rs/backend/src/config.rs:11 | an octet renders as 1 to 3 digits with no leading zero |
| Config.ParseOctet | backend-rs/backend/src/config.rs:11 | a part parses as an octet only when it is an octet's rendering |
| Config.Ipv4ToString | backend-rs/backend/src/config.rs:10-12 | the dotted-decimal rendering is 7 to 15 characters long |
| Config.Ipv4ToStringParts | backend-rs/backend/src/config.rs:10-12 | splitting the rendering on '.' gives the four octet renderings, each canonical with 1 to 3 digits |
| Config.Ipv4ToStringDots | backend-rs/backend/src/config.rs:10-12 | the rendering holds exactly three dots |
| Config.ParseIpv4OfToString | backend-rs/backend/src/config.rs:10-12 | splitting on '.' and parsing each part recovers the array |
| Config.Ipv4ToStringInjective | backend-rs/backend/src/config.rs:10-12 | distinct addresses render differently |
| Config.PortString | backend-rs/backend/src/config.rs:46 | the port renders as 1 to 5 decimal digits with no leading zero and its own value |
| Config.HostAlphabet | backend-rs/backend/src/config.rs:10-12 | the rendered host holds only digits and dots |
| Config.ConnectionString | backend-rs/backend/src/config.rs:40-49 | the string starts with "postgres://" and goes on; `ParseConnectionStringOf` and `ConnectionStringAmbiguous` pin down the rest |
| Config.ParseConnectionStringOf | backend-rs/backend/src/config.rs:40-49 | when the user holds no ':' and the password no '@', reading the string back gives the same database section |
| Config.ConnectionStringAmbiguous | backend-rs/backend/src/config.rs:42-44 | nothing is escaped, so a ':' can be read as part of the user or of the password and two different sections give the same string |

## Left out

- Streams: the openers return the stored bytes, not a `Stream`. Ownership and disposal are not modelled.
- `long.Parse` also skips trailing NUL characters and follows the current culture's sign symbols. The model uses the invariant-culture integer grammar without NULs.
- `VideoId` and the Go `models.Id` are not part of this model. Their `ToString()`/`String()` is taken to be the decimal form of the value. The loader's lemmas about distinct ids use only that this rendering is injective.
- Path handling: `Path.GetFileName` is modelled with '/' and '\\' as separators. Drive roots and invalid path characters are not modelled.
- Snowflake generation (`idgen.Generate()`) is not part of this model: `NewVideo` takes the generated id as a parameter.
- gorm: `Preload("Creator")`, the `Base` fields other than the id, soft deletion, and errors other than a missing record and a duplicate key are not modelled.
- gorm drops zero fields from a struct condition. `COMPLETE` and `PUBLIC` are non-zero, so both conditions apply, and the model states them directly.
- Models.VideoTable.FetchAllVideos: ordering by id is done by repeatedly taking the largest remaining key. The SQL engine's own sort is not modelled.
- Entity Framework annotations, column types and the `TagId` index are not modelled. An insert with an explicit key into an identity-by-default column is not modelled; keys always come from the sequence.
- Live rooms: the concurrent room registry, goroutines, WebRTC and gin plumbing are not modelled. The registry's iteration order is taken as the order of the input sequence.
- `getUserInfo` is a parameter of the model, and `getUserId` (JWT verification of the token) is not modelled. The middleware model ends at the shape check.
- Creation times are Unix seconds (`int`). `time.Time` is not modelled.
- Live.GetLiveRooms: `slices.SortFunc` is an unstable in-place sort. The model sorts functionally by insertion and claims only sorted and permutation, so the order of fully tied rooms is not specified.
- Room state, the upload session logic and the `BeginUploadSession` "already streaming" check are not modelled. They depend on asynchronous registration.
- The configuration loader (`load()`, environment and TOML reading), the Rust server bootstrap and the frontend are not modelled: they are I/O plumbing.
- Watch conditions and view-count policy are not modelled, since no logic for them exists in the code.
- Schema.VideoDatabaseContext.AddVideoTag: when both foreign keys are missing, the model reports `MissingVideo`. Which violated constraint the database reports first is not fixed by the schema; that order is the model's own choice.
- Persistence.ListLabels: the program's `FormatException` or `OverflowException` gives only the kind of failure. `CorruptLabel.name`, the first file name that did not parse, is the model's own record of which name failed; a caller of the program does not receive it.
- Stored enumeration values outside `VideoStatus` and `Visibility` are decoded to `None`. A row in the model always holds a valid value.

# beatsaver-cdn: identifier resolution and metadata sync, in Dafny

The gateway serves map archives, audio previews, covers, playlist covers and
avatars. An archive or preview is addressed either by the content hash of a
map version or by the map's legacy key, its numeric id in base 16. A local
copy of two tables, `map` and `version`, tells the gateway which hashes
belong to which map, which version a legacy key currently points at, which
maps are deleted, and the download filename of each map. An upstream system
keeps that copy current by sending `CDNUpdate` messages.

This project models the core of that behaviour:

- `Schema` (Schema.dfy) holds the two tables as values. `MapRow` and
  `VersionRow` are the row views, `Tables` is the whole store, and
  `WellFormed` states the constraints the schema enforces. A hash fits the
  40-character column, and every version references an existing map.
  `AtMostOnePublished` is the publication invariant.
- `Sync` (Sync.dfy) is the message consumer as functions. `UpsertMap`,
  `Demote` and `UpsertVersion` are its three statements. `Apply` is one event
  as one transaction: either the new store, or `None` when the database
  refuses a step and the transaction rolls back.
- `Routes` (Routes.dfy) holds each route handler as a function of the store.
  The handler also sees the set of files on disk, the client address and the
  request identifier. It yields a `Response` (`Serve(file, name)` or
  `NotFound`), the store afterwards (the filename cache fill) and the download
  notification it publishes, if any.
- `Database` (Database.dfy) is the store as one object. `Store` has the two
  tables as `map` fields and updates them in place. Its methods are the
  consumer body (`ApplyUpdate`, with one helper per upsert), the cache fill (`FileNameFor`) and the three
  routes that read the database (`GetZip`, `GetBeatSaver`, `GetBsAudio`).
  Each method is proved equal to its function in `Sync` or `Routes`.
- `Kotlin` (Kotlin.dfy) covers the platform operations the code uses:
  `Int`/`Long`, nullable values, `String.isBlank`, `Integer.toHexString`,
  `String.toInt(16)` and `Long.toString`.
- `Common` (Common.dfy) covers the shared-library helpers (`downloadFilename`,
  `localFolder` and the other folder functions). Their code is not part of
  this model, so they are fields of a `Library` value that every operation
  that calls them takes. It also holds file paths (`java.io.File(parent, child)`) and the
  download notifications.
- `Scenarios` (Scenarios.dfy) holds lemmas that prove what a short event
  history does to the store and to the routes: publish, republish, a
  malformed key, delete. Two client methods drive the same history through
  the `Store` object.

Five points of the code's behaviour that the model keeps as written:

- The consumer writes each name that is present on its own (amqp.kt:28-29).
  Only the filename waits for both names (amqp.kt:25-27).
- The key archive route hands the resolved archive to `returnFile` whether or
  not it is on disk (main.kt:126,134). Only the download notification depends
  on the file being on disk (main.kt:113-115).
- Demoting the other versions of a map happens only when an event publishes
  (amqp.kt:35-39). So an event that moves an already published version to
  another map can leave that map with two published versions. See
  `Sync.MovingPublishedVersionBreaksUniqueness`.
- A deleted map is not a permanent tombstone. The consumer writes `deleted`
  from each event (amqp.kt:30), so a later event with `deleted` false makes
  the map resolvable again. See `Sync.ApplyUpdatesMapRow`.
- The filename of a map with a negative id comes from `toHexString` of the
  unsigned 32-bit value (amqp.kt:26), and no key route accepts that key,
  because `toInt(16)` rejects it (main.kt:81). See
  `Kotlin.HexOfNegativeDoesNotParse`.

## Model

| member | source | states |
|---|---|---|
| `Kotlin.IsBlank` | src/main/kotlin/io/beatmaps/cdn/main.kt:66 | the empty string is blank, and a blank string holds no base-16 digit |
| `Kotlin.ToHexString` | src/main/kotlin/io/beatmaps/cdn/main.kt:81 | `Integer.toHexString` writes at least one hexadecimal digit, the digits are lower-case ASCII `0-9a-f` with no leading zero, and they denote the unsigned 32-bit value of the `Int` |
| `Kotlin.ParseInt16` | src/main/kotlin/io/beatmaps/cdn/main.kt:107 | `toInt(16)` rejects an empty string, one starting with whitespace, a non-hexadecimal character after the first position, and a digit string whose value exceeds `Int.MAX_VALUE`; an accepted string is an optional '-' or '+' and at least one hexadecimal digit, and its value is the digits' value, negated after '-'; a plain digit string that fits an `Int` reads as its value |
| `Kotlin.HexRoundTrip` | src/main/kotlin/io/beatmaps/cdn/main.kt:107 | `toInt(16)` gives back every non-negative `Int` that `toHexString` wrote (the key written at :81 is read back at :107) |
| `Kotlin.HexOfNegativeDoesNotParse` | src/main/kotlin/io/beatmaps/cdn/main.kt:81 | `toHexString` of a negative `Int` is a value above `Int.MAX_VALUE`, so `toInt(16)` rejects it |
| `Kotlin.HexStringInjective` | src/main/kotlin/io/beatmaps/cdn/main.kt:81 | distinct non-negative map ids get distinct hexadecimal keys |
| `Kotlin.HexDigitsAreDigits` | src/main/kotlin/io/beatmaps/cdn/main.kt:81 | `toHexString` writes at least one digit, only hexadecimal digits, and their value is the number written |
| `Kotlin.BlankDoesNotParse` | src/main/kotlin/io/beatmaps/cdn/main.kt:107 | a blank key (empty included) never parses as base 16 |
| `Kotlin.DecimalDigitsAreDigits` | src/main/kotlin/io/beatmaps/cdn/main.kt:181 | the decimal form of a user id is decimal digits whose value is the id |
| `Kotlin.LongToString` | src/main/kotlin/io/beatmaps/cdn/main.kt:181 | a `Long` is written with a leading '-' exactly when it is negative, followed by decimal digits that denote its magnitude |
| `Kotlin.LongToStringInjective` | src/main/kotlin/io/beatmaps/cdn/main.kt:181 | distinct `Long`s are written as distinct strings |
| `Common.DownloadName` | src/main/kotlin/io/beatmaps/cdn/amqp.kt:26 | for a non-negative id, the download filename of a map is `downloadFilename` of the map's legacy key, a string that parses back to the map id, and its two names |
| `Common.HashDownload` | src/main/kotlin/io/beatmaps/cdn/main.kt:91 | the hash route's notification goes to the "beatmaps" exchange with a routing key that names a hash download of exactly the identifier its payload carries, with the client address |
| `Common.KeyDownload` | src/main/kotlin/io/beatmaps/cdn/main.kt:114 | the key route's notification goes to the "beatmaps" exchange with a routing key that names a key download of exactly the identifier its payload carries, with the client address |
| `Common.RoutingKeyDeterminesDownload` | src/main/kotlin/io/beatmaps/cdn/main.kt:91-114 | two notifications with the same routing key are of the same kind and for the same identifier |
| `Schema.WellFormed` | src/main/kotlin/io/beatmaps/cdn/db/cdn.kt:12-16 | under the schema's constraints (a hash within `char(40)`, `mapId` a reference to `map`) every map with a published version has a map row |
| `Schema.AtMostOnePublishedIff` | src/main/kotlin/io/beatmaps/cdn/amqp.kt:35-39 | no two published versions share a map exactly when every map has at most one published version |
| `Sync.UpsertMap` | src/main/kotlin/io/beatmaps/cdn/amqp.kt:20-31 | the map upsert succeeds exactly when the row exists or both names are given; the row then exists with the event's `deleted`, and no other map row changes |
| `Sync.Demote` | src/main/kotlin/io/beatmaps/cdn/amqp.kt:35-39 | the demotion keeps every version and its map, leaves at most the event's hash published for the map, and leaves every other map's published set as it was; the event's own version row is unchanged |
| `Sync.UpsertVersion` | src/main/kotlin/io/beatmaps/cdn/amqp.kt:41-47 | the version upsert succeeds exactly when the hash fits its column and either exists or comes with `published`; the row then belongs to the event's map, takes the event's `published` or keeps the stored one, and no other version changes |
| `Sync.VersionStep` | src/main/kotlin/io/beatmaps/cdn/amqp.kt:34-47 | the version statements succeed exactly when the hash fits its column and either exists or comes with `published`; the hash's row then belongs to the event's map with the event's `published` or the stored one, the map's other versions are unpublished when the event publishes and unchanged otherwise, and other maps' versions are unchanged |
| `Sync.Apply` | src/main/kotlin/io/beatmaps/cdn/amqp.kt:19-49 | a committed event leaves the event's map present with the event's `deleted`, adds no map but that one, and leaves the event's hash as a version of the event's map |
| `Sync.ApplyCommitsIff` | src/main/kotlin/io/beatmaps/cdn/db/cdn.kt:13-31 | an event commits if and only if a new map row gets both names, and a hash fits its 40-character column and is either already stored or comes with `published` (the non-null columns) |
| `Sync.ApplyUpdatesMapRow` | src/main/kotlin/io/beatmaps/cdn/amqp.kt:20-31 | the map row exists afterwards with the event's `deleted`; each name is replaced only when the event carries it, independently; `fileName` is recomputed from hex(id) and both names exactly when both are present, else kept; other map rows are unchanged |
| `Sync.ApplyWithoutHashKeepsVersions` | src/main/kotlin/io/beatmaps/cdn/amqp.kt:33-34 | an event without a hash leaves the version table exactly as it was |
| `Sync.ApplyUpdatesVersions` | src/main/kotlin/io/beatmaps/cdn/amqp.kt:34-47 | the hash's row gets the event's map and the event's `published`, or keeps its stored one; when the event publishes, the map's other versions become unpublished; versions of other maps are unchanged |
| `Sync.ApplyPublishesUniquely` | src/main/kotlin/io/beatmaps/cdn/amqp.kt:35-46 | after an event that publishes a hash, that hash is the only published version of its map |
| `Sync.ApplyIdempotent` | src/main/kotlin/io/beatmaps/cdn/amqp.kt:19-49 | applying a committed event again changes nothing |
| `Sync.ApplyPreservesWellFormed` | src/main/kotlin/io/beatmaps/cdn/db/cdn.kt:13-14 | a committed event keeps every hash within its column and every version's map reference valid |
| `Sync.ApplyPreservesAtMostOnePublished` | src/main/kotlin/io/beatmaps/cdn/amqp.kt:35-46 | at most one published version per map survives every event that does not move a published version to another map |
| `Sync.MovingPublishedVersionBreaksUniqueness` | src/main/kotlin/io/beatmaps/cdn/amqp.kt:41-46 | a hash-only event that moves map 1's published version to map 2, which has one already, leaves map 2 with two |
| `Routes.ZipFile` | src/main/kotlin/io/beatmaps/cdn/main.kt:70 | the archive's name without its extension is the hash, in the folder `localFolder` assigns to that hash |
| `Routes.AudioFile` | src/main/kotlin/io/beatmaps/cdn/main.kt:189-192 | the preview's name without its extension is the hash, in the folder `localAudioFolder` assigns to that hash |
| `Routes.VisibleMapOf` | src/main/kotlin/io/beatmaps/cdn/main.kt:72-79 | the hash route's join yields the version's own map, present and not deleted; for a stored version of a well-formed store it yields nothing only when that map is deleted |
| `Routes.Zip` | src/main/kotlin/io/beatmaps/cdn/main.kt:65-98 | the hash route changes no version and adds no map; not found leaves the store as it was and publishes nothing; serving serves that hash's archive, which is on disk, and publishes its hash notification |
| `Routes.KeyLookup` | src/main/kotlin/io/beatmaps/cdn/main.kt:102-110 | a resolved key parses to the resolved map, which is present and not deleted; a key that parses to a present map resolves unless that map is deleted or has no published version |
| `Routes.BeatSaver` | src/main/kotlin/io/beatmaps/cdn/main.kt:101-134 | the key archive route changes no version and adds no map; not found leaves the store as it was and publishes nothing; a notification is published only when it serves a file on disk, and it is the key notification |
| `Routes.BsAudio` | src/main/kotlin/io/beatmaps/cdn/main.kt:145-161 | the audio key route never names a download file, and serves only for a key that parses |
| `Routes.Audio` | src/main/kotlin/io/beatmaps/cdn/main.kt:137-143 | the audio route is not found exactly for a blank hash; otherwise it serves a file in `localAudioFolder` of the hash whose name without its extension is the hash, with no download name |
| `Routes.Cover` | src/main/kotlin/io/beatmaps/cdn/main.kt:164-170 | the cover route is not found exactly for a blank identifier; otherwise it serves a file in `localCoverFolder` of the identifier whose name without its extension is the identifier, with no download name |
| `Routes.PlaylistCover` | src/main/kotlin/io/beatmaps/cdn/main.kt:172-178 | the playlist cover route is not found exactly for a blank identifier; otherwise it serves a file in the one playlist cover folder whose name without its extension is the identifier, with no download name |
| `Routes.Avatar` | src/main/kotlin/io/beatmaps/cdn/main.kt:180-182 | the avatar route always serves a file in the avatar folder, named after the user id's decimal form, with no download name |
| `Routes.AvatarSimple` | src/main/kotlin/io/beatmaps/cdn/main.kt:184-186 | the JPEG avatar route always serves a file in the avatar folder, named after the user id's decimal form, with no download name |
| `Routes.ReadThroughFileName` | src/main/kotlin/io/beatmaps/cdn/main.kt:80-88 | the cache fill serves the stored `fileName` and writes nothing, or computes the name from hex(id) and the names and stores it; afterwards the row holds the served name and nothing else changed |
| `Routes.ReadThroughIdempotent` | src/main/kotlin/io/beatmaps/cdn/main.kt:117-124 | a second cache fill returns the same name and writes nothing |
| `Routes.ZipBlankNotFound` | src/main/kotlin/io/beatmaps/cdn/main.kt:66-68 | a blank hash is not found, with the store unchanged and nothing published |
| `Routes.ZipMissingFileNotFound` | src/main/kotlin/io/beatmaps/cdn/main.kt:70-95 | when the archive is not on disk the answer is not found whatever the store holds, the store is unchanged and nothing is published |
| `Routes.ZipUnknownOrDeletedNotFound` | src/main/kotlin/io/beatmaps/cdn/main.kt:72-79 | a hash with no version, or whose map is missing or deleted, is not found |
| `Routes.ZipServesIff` | src/main/kotlin/io/beatmaps/cdn/main.kt:65-98 | the hash route serves if and only if the hash is not blank, its archive is on disk and its map is visible; it serves that archive under the cached or computed name, leaves the map table as the cache fill leaves it (unchanged when the name was cached), and publishes one hash notification exactly when it serves |
| `Routes.ZipRepeatable` | src/main/kotlin/io/beatmaps/cdn/main.kt:65-98 | repeating a hash request gives the same response and leaves the store as the first request left it |
| `Routes.UnparsableKeyNotFound` | src/main/kotlin/io/beatmaps/cdn/main.kt:129-131 | a key `toInt(16)` rejects is not found by the archive and audio key routes, with the store untouched |
| `Routes.DeletedMapNotFound` | src/main/kotlin/io/beatmaps/cdn/main.kt:107 | a deleted map is not found by any key that denotes it nor by any of its versions' hashes |
| `Routes.KeyLookupResolves` | src/main/kotlin/io/beatmaps/cdn/main.kt:104-110 | a key resolves if and only if it parses to a non-deleted map with a published version, and then to one of that map's published versions |
| `Routes.KeyLookupUnique` | src/main/kotlin/io/beatmaps/cdn/main.kt:105-109 | with at most one published version per map, a key resolves to exactly that version |
| `Routes.BeatSaverServesResolvedHash` | src/main/kotlin/io/beatmaps/cdn/main.kt:101-134 | the key archive route serves the resolved version's archive, never a file named after the key; it leaves the map table as the cache fill leaves it (unchanged when the name was cached), and publishes a key notification exactly when the archive is on disk |
| `Routes.BeatSaverFillIgnoresDisk` | src/main/kotlin/io/beatmaps/cdn/main.kt:113-124 | whether the archive is on disk changes only the notification, not the response or the cache fill |
| `Routes.BsAudioServesResolvedHash` | src/main/kotlin/io/beatmaps/cdn/main.kt:145-161 | the audio key route serves exactly when the key parses to a present, non-deleted map with a published version, and then serves the preview of one of that map's published versions |
| `Routes.LegacyKeyResolves` | src/main/kotlin/io/beatmaps/cdn/main.kt:107 | for a non-negative id, the key `toHexString(id)` of a visible map whose published versions are exactly one hash brings the key routes to that version |
| `Routes.AvatarFilesDistinct` | src/main/kotlin/io/beatmaps/cdn/main.kt:180-186 | distinct users never share an avatar path (folder and file name) |
| `Routes.KeyJoinAsWritten` | src/main/kotlin/io/beatmaps/cdn/main.kt:104-110 | the key routes' first joined row, as the handlers read it, is for the map the key parses to, present and not deleted, and its hash column is null exactly when that map has no published version; no row means the key does not parse or its map is missing or deleted |
| `Routes.KeyJoinAsWrittenAgrees` | src/main/kotlin/io/beatmaps/cdn/main.kt:109-110 | the handlers' first joined row agrees with `KeyLookup`, except that a visible map with no published version yields a null hash column |
| `Routes.UnpublishedMapDereferencesNull` | src/main/kotlin/io/beatmaps/cdn/main.kt:110 | key "1" for a non-deleted map 1 with no versions yields a row whose hash is null, where `KeyLookup` answers not found |
| `Database.Store.constructor` | src/main/kotlin/io/beatmaps/cdn/db/cdn.kt:12-31 | an empty store satisfies the schema's constraints |
| `Database.Store.UpsertMapRow` | src/main/kotlin/io/beatmaps/cdn/amqp.kt:20-31 | the in-place map upsert succeeds exactly when `Sync.UpsertMap` does, then leaves its map table, and otherwise writes nothing; versions are untouched and the schema's constraints hold |
| `Database.Store.UpsertVersionRow` | src/main/kotlin/io/beatmaps/cdn/amqp.kt:35-47 | for a map that exists (the `mapId` foreign key), the in-place demotion and version upsert succeed exactly when `Sync.VersionStep` does and then leave its version table; a refused upsert leaves only the demotion written; maps are untouched and the schema's constraints hold |
| `Database.Store.ApplyUpdate` | src/main/kotlin/io/beatmaps/cdn/amqp.kt:19-49 | updating the two tables in place, the consumer commits exactly when `Sync.Apply` does, leaves the state `Sync.Apply` gives, rolls back to the old state otherwise, and keeps the schema's constraints |
| `Database.Store.FileNameFor` | src/main/kotlin/io/beatmaps/cdn/main.kt:80-88 | the in-place cache fill returns and stores what `Routes.ReadThroughFileName` gives, leaving versions untouched |
| `Database.Store.GetZip` | src/main/kotlin/io/beatmaps/cdn/main.kt:65-98 | the hash route on the live store gives the response, notification and new store of `Routes.Zip` |
| `Database.Store.LookupKey` | src/main/kotlin/io/beatmaps/cdn/main.kt:102-110 | the key query on the live store returns `Routes.KeyLookup` |
| `Database.Store.GetBeatSaver` | src/main/kotlin/io/beatmaps/cdn/main.kt:101-134 | the key archive route on the live store gives the response, notification and new store of `Routes.BeatSaver` |
| `Database.Store.GetBsAudio` | src/main/kotlin/io/beatmaps/cdn/main.kt:145-161 | the audio key route reads the live store, changes nothing and answers `Routes.BsAudio` |
| `Scenarios.KeyOneIsMapOne` | src/main/kotlin/io/beatmaps/cdn/main.kt:107 | map 1's key is "1" and "1" parses back to 1 |
| `Scenarios.FirstPublication` | src/main/kotlin/io/beatmaps/cdn/amqp.kt:19-49 | publishing map 1 "Foo"/"Bar" into an empty store creates its row with the filename from ("1", "Foo", "Bar") and a published version, which the hash route serves under that name |
| `Scenarios.Republication` | src/main/kotlin/io/beatmaps/cdn/amqp.kt:35-46 | publishing a second hash unpublishes the first, and key "1" then serves the second hash's archive |
| `Scenarios.MalformedKey` | src/main/kotlin/io/beatmaps/cdn/main.kt:129-131 | key "zzz" is not found and leaves the store untouched |
| `Scenarios.Deletion` | src/main/kotlin/io/beatmaps/cdn/amqp.kt:30-34 | a deletion event marks the map deleted, keeps its versions, and both addressing modes then answer not found |

## Findings

| source | as written | input that shows it | evidently intended | confidence | as-written member | corrected member |
|---|---|---|---|---|---|---|
| src/main/kotlin/io/beatmaps/cdn/main.kt:110 | Both key routes read `map[VersionTable.id].value` from the first row of a full outer join with the published versions (also at :154). A map that is not deleted but has no published version produces a row whose version columns are null, so the handler fails with an internal error. | map 1 exists, is not deleted and has no published version; request key "1" | not found, like an unknown or deleted key | medium (Exposed's behaviour on a null non-nullable column is inferred); not executed | `Routes.UnpublishedMapDereferencesNull` | `Routes.KeyLookupResolves` |

## Left out

- HTTP plumbing is not modelled: Ktor routing and locations, the CORS headers (main.kt:57-63,97,133), the status-page mapping and the whole of server.kt (environment, Netty, Jackson, queue declaration). A route's result is what it hands to `returnFile`, or the not-found it throws.
- `returnFile` is not part of this model. The model does not say what it does with a missing file. When the key archive route finds nothing it passes null, and the model treats that as not found.
- `downloadFilename` and the `local*Folder` helpers are not part of this model. They are parameters (`Common.Library`), and every property holds whatever they compute.
- `call.pub` is modelled as the notification a request returns. Transport, failures and delivery are left out.
- The consumer is modelled as one atomic step per event. Transactions, acknowledgement, at-least-once redelivery and races with concurrent cache fills are left out. A rolled-back event leaves the store unchanged, and the model does not redeliver it.
- Store failures are left out. The only failures modelled are the ones the schema imposes: a non-null column missing on insert, and a hash too long for its column.
- Postgres `char(40)` is modelled only as a length limit. Its blank padding, and the fact that trailing spaces do not count in comparisons, are left out. The upsert helper's SQL is not part of this model. So is the question whether the database checks non-null columns on the insert side of an upsert whose row already exists. The model gives each upsert the partial-update meaning the consumer relies on.
- `firstOrNull` picks from several joined rows in an order the database does not fix. The model takes that choice as a parameter `firstRow`. Lemmas that need the choice to be one of the rows require `Routes.PicksMember`.
- `Character.digit` is modelled for ASCII and full-width hexadecimal digits. The other Unicode decimal digits it accepts are left out. Strings are sequences of Unicode scalar values, not UTF-16 code units.
- How Ktor parses `{user}` into a `Long` for the avatar routes is left out. The handler receives the `Long`.
- `Sync.ApplyPreservesAtMostOnePublished`: this is weaker than the one-published-version-per-map rule the system is meant to keep. It holds only for events that do not move an already published version to another map. For those events the code does not keep the rule; see `Sync.MovingPublishedVersionBreaksUniqueness`.
- `Routes.KeyLookupResolves`, `Routes.KeyLookupUnique`, `Routes.BsAudioServesResolvedHash`, `Routes.LegacyKeyResolves`, `Scenarios.Republication`: these assume the database returns one of the matching rows (`Routes.PicksMember`).
- `java.io.File(parent, child)` is modelled as the pair of folder and name. Path normalisation is left out. An identifier containing '/' names a file in a subfolder on disk, so two different pairs can be the same file there.

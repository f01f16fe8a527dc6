/** The route handlers of the gateway: how a request for an archive, an audio
    preview, a cover or an avatar is resolved to a file and a download name.
    The functions here are pure; the two handlers that also fill the filename
    cache are implemented by `Database.Store.GetZip` and
    `Database.Store.GetBeatSaver`, which are proved against them. */
module Routes {
  import opened Kotlin
  import opened Schema
  import opened Common

  /** What a handler hands to `returnFile`: a file and an optional download
      name, or the 404 of a `NotFoundException`. */
  datatype Response = NotFound | Serve(file: Path, name: Option<string>)

  /** The response, the store afterwards and the notification published, if any. */
  datatype RouteResult = RouteResult(response: Response, tables: Tables, notification: Option<Notification>)

  /** A legacy key resolved by the key routes' join: the map and the hash of
      its published version. */
  datatype Resolved = Resolved(mapId: int32, hash: string)

  /** The cache-fill outcome: the name to serve and the map table afterwards. */
  datatype Fill = Fill(name: string, maps: map<int32, MapRow>)

  /** The archive of version `hash`: the hash is the file's name, in the
      folder the library assigns to it. */
  function ZipFile(lib: Library, hash: string): (p: Path)
    ensures Stem(p.name) == hash && p.dir == lib.localFolder(hash)
  {
    Path(lib.localFolder(hash), hash + ".zip")
  }

  /** The audio preview of version `hash` (`getAudio`). */
  function AudioFile(lib: Library, hash: string): (p: Path)
    ensures Stem(p.name) == hash && p.dir == lib.localAudioFolder(hash)
  {
    Path(lib.localAudioFolder(hash), hash + ".mp3")
  }

  /** The map the hash route may serve: version `hash` joined to its map,
      when that map exists and is not deleted. */
  function VisibleMapOf(t: Tables, hash: string): (r: Option<int32>)
    ensures r.Some? ==>
      && hash in t.versions && t.versions[hash].mapId == r.value
      && r.value in t.maps && !t.maps[r.value].deleted
    ensures WellFormed(t) && hash in t.versions && r.None? ==> t.maps[t.versions[hash].mapId].deleted
  {
    if hash in t.versions && t.versions[hash].mapId in t.maps && !t.maps[t.versions[hash].mapId].deleted
    then Some(t.versions[hash].mapId)
    else None
  }

  /** The read-through filename cache: the stored `fileName` when there is one,
      otherwise the computed name, which is written back. Either way the map
      row afterwards holds the name served, and nothing else changes. */
  function ReadThroughFileName(lib: Library, maps: map<int32, MapRow>, id: int32): (f: Fill)
    requires id in maps
    ensures f.maps == maps[id := maps[id].(fileName := Some(f.name))]
    ensures maps[id].fileName.Some? ==> f.name == maps[id].fileName.value && f.maps == maps
    ensures maps[id].fileName.None? ==> f.name == DownloadName(lib, id, maps[id].songName, maps[id].levelAuthorName)
  {
    match maps[id].fileName
    case Some(name) => Fill(name, maps)
    case None =>
      var name := DownloadName(lib, id, maps[id].songName, maps[id].levelAuthorName);
      Fill(name, maps[id := maps[id].(fileName := Some(name))])
  }

  /** `get<CDN.Zip>`: an archive by hash. */
  function Zip(t: Tables, lib: Library, existing: set<Path>, remoteHost: string, file: string): (r: RouteResult)
    ensures r.tables.versions == t.versions && r.tables.maps.Keys == t.maps.Keys
    ensures r.response.NotFound? ==> r.tables == t && r.notification.None?
    ensures r.response.Serve? ==>
      && r.response.file == ZipFile(lib, file) && r.response.file in existing
      && r.notification == Some(HashDownload(file, remoteHost))
  {
    if IsBlank(file) || ZipFile(lib, file) !in existing then RouteResult(NotFound, t, None)
    else
      match VisibleMapOf(t, file)
      case None => RouteResult(NotFound, t, None)
      case Some(id) =>
        var fill := ReadThroughFileName(lib, t.maps, id);
        RouteResult(Serve(ZipFile(lib, file), Some(fill.name)), t.(maps := fill.maps),
                    Some(HashDownload(file, remoteHost)))
  }

  /** `firstRow` returns one of the rows it is given: the database's choice
      when the key routes' join yields several. */
  ghost predicate PicksMember(firstRow: set<string> -> string) {
    forall s: set<string> | s != {} :: firstRow(s) in s
  }

  /** The key routes' query: parse `key` with `toInt(16)`, join the map to its
      published version, drop deleted maps and take the first row. A map with
      no published version is `None` as well. */
  function KeyLookup(t: Tables, firstRow: set<string> -> string, key: string): (r: Option<Resolved>)
    ensures r.Some? ==>
      && ParseInt16(key) == Some(r.value.mapId)
      && r.value.mapId in t.maps && !t.maps[r.value.mapId].deleted
    ensures r.None? && ParseInt16(key).Some? && ParseInt16(key).value in t.maps ==>
      t.maps[ParseInt16(key).value].deleted || PublishedOf(t.versions, ParseInt16(key).value) == {}
  {
    match ParseInt16(key)
    case None => None
    case Some(id) =>
      if id !in t.maps || t.maps[id].deleted || PublishedOf(t.versions, id) == {} then None
      else Some(Resolved(id, firstRow(PublishedOf(t.versions, id))))
  }

  /** The first row of the key routes' join as the handlers read it: no row,
      or the map with the hash column of its published version, which the
      outer join leaves null when the map has none. */
  datatype JoinRow = NoRow | Row(mapId: int32, hash: Option<string>)

  function KeyJoinAsWritten(t: Tables, firstRow: set<string> -> string, key: string): (r: JoinRow)
    ensures r.Row? ==>
      && ParseInt16(key) == Some(r.mapId)
      && r.mapId in t.maps && !t.maps[r.mapId].deleted
      && (r.hash.None? <==> PublishedOf(t.versions, r.mapId) == {})
    ensures r.NoRow? ==>
      || ParseInt16(key).None?
      || ParseInt16(key).value !in t.maps || t.maps[ParseInt16(key).value].deleted
  {
    match ParseInt16(key)
    case None => NoRow
    case Some(id) =>
      if id !in t.maps || t.maps[id].deleted then NoRow
      else if PublishedOf(t.versions, id) == {} then Row(id, None)
      else Row(id, Some(firstRow(PublishedOf(t.versions, id))))
  }

  /** The handlers dereference the hash column of every row they get, so a
      visible map without a published version fails with an internal error
      instead of a not-found; every other row is what `KeyLookup` returns. */
  lemma KeyJoinAsWrittenAgrees(t: Tables, firstRow: set<string> -> string, key: string)
    ensures var row := KeyJoinAsWritten(t, firstRow, key);
      && (row.NoRow? ==> KeyLookup(t, firstRow, key).None?)
      && (row.Row? && row.hash.Some? ==> KeyLookup(t, firstRow, key) == Some(Resolved(row.mapId, row.hash.value)))
      && (row.Row? && row.hash.None? ==>
            KeyLookup(t, firstRow, key).None? && row.mapId in t.maps && !t.maps[row.mapId].deleted
            && PublishedOf(t.versions, row.mapId) == {})
  {
  }

  /** The input that shows it: map 1 exists, is not deleted and has no
      versions; key "1" yields a row whose hash column is null. */
  lemma UnpublishedMapDereferencesNull(firstRow: set<string> -> string)
    ensures var t := Tables(map[1 := MapRow(None, "Foo", "Bar", false)], map[]);
      KeyJoinAsWritten(t, firstRow, "1") == Row(1, None) && KeyLookup(t, firstRow, "1").None?
  {
    assert HexValue("1") == 1 by { assert "1"[..0] == []; }
    assert ParseInt16("1") == Some(1);
  }

  /** `get<CDN.BeatSaver>`: an archive by legacy key. */
  function BeatSaver(t: Tables, lib: Library, firstRow: set<string> -> string, existing: set<Path>,
                     remoteHost: string, key: string): (r: RouteResult)
    ensures r.tables.versions == t.versions && r.tables.maps.Keys == t.maps.Keys
    ensures r.response.NotFound? ==> r.tables == t && r.notification.None?
    ensures r.notification.Some? ==>
      && r.response.Serve? && r.response.file in existing
      && r.notification == Some(KeyDownload(key, remoteHost))
  {
    match KeyLookup(t, firstRow, key)
    case None => RouteResult(NotFound, t, None)
    case Some(r) =>
      var file := ZipFile(lib, r.hash);
      var note := if file in existing then Some(KeyDownload(key, remoteHost)) else None;
      var fill := ReadThroughFileName(lib, t.maps, r.mapId);
      RouteResult(Serve(file, Some(fill.name)), t.(maps := fill.maps), note)
  }

  /** `get<CDN.BSAudio>`: an audio preview by legacy key. */
  function BsAudio(t: Tables, lib: Library, firstRow: set<string> -> string, key: string): (r: Response)
    ensures r.Serve? ==> r.name.None? && ParseInt16(key).Some?
    ensures ParseInt16(key).None? ==> r.NotFound?
  {
    match KeyLookup(t, firstRow, key)
    case None => NotFound
    case Some(r) => Serve(AudioFile(lib, r.hash), None)
  }

  /** `get<CDN.Audio>`: an audio preview by hash. Not found exactly for a
      blank hash; never a download name. */
  function Audio(lib: Library, file: string): (r: Response)
    ensures r.NotFound? <==> IsBlank(file)
    ensures r.Serve? ==> r.name.None? && Stem(r.file.name) == file && r.file.dir == lib.localAudioFolder(file)
  {
    if IsBlank(file) then NotFound else Serve(AudioFile(lib, file), None)
  }

  /** `get<CDN.Cover>`. */
  function Cover(lib: Library, file: string): (r: Response)
    ensures r.NotFound? <==> IsBlank(file)
    ensures r.Serve? ==> r.name.None? && Stem(r.file.name) == file && r.file.dir == lib.localCoverFolder(file)
  {
    if IsBlank(file) then NotFound else Serve(Path(lib.localCoverFolder(file), file + ".jpg"), None)
  }

  /** `get<CDN.PlaylistCover>`: one folder for all playlist covers. */
  function PlaylistCover(lib: Library, file: string): (r: Response)
    ensures r.NotFound? <==> IsBlank(file)
    ensures r.Serve? ==> r.name.None? && Stem(r.file.name) == file && r.file.dir == lib.localPlaylistCoverFolder
  {
    if IsBlank(file) then NotFound else Serve(Path(lib.localPlaylistCoverFolder, file + ".jpg"), None)
  }

  /** `get<CDN.Avatar>`: always a file, named after the user id. */
  function Avatar(lib: Library, user: int64): (r: Response)
    ensures r.Serve? && r.name.None? && r.file.dir == lib.localAvatarFolder
    ensures Stem(r.file.name) == LongToString(user)
  {
    Serve(Path(lib.localAvatarFolder, LongToString(user) + ".png"), None)
  }

  /** `get<CDN.AvatarSimple>`: as `Avatar`, in JPEG. */
  function AvatarSimple(lib: Library, user: int64): (r: Response)
    ensures r.Serve? && r.name.None? && r.file.dir == lib.localAvatarFolder
    ensures Stem(r.file.name) == LongToString(user)
  {
    Serve(Path(lib.localAvatarFolder, LongToString(user) + ".jpg"), None)
  }

  // ---------------------------------------------------------------------------
  // Identifiers that cannot resolve

  /** A blank hash is not found before any file or store access: the store is
      unchanged and nothing is published. */
  lemma ZipBlankNotFound(t: Tables, lib: Library, existing: set<Path>, remoteHost: string, file: string)
    requires IsBlank(file)
    ensures Zip(t, lib, existing, remoteHost, file) == RouteResult(NotFound, t, None)
  {
  }

  /** When the archive is not on disk the hash route answers not found for
      every store, leaves it as it was and publishes nothing. */
  lemma ZipMissingFileNotFound(t: Tables, lib: Library, existing: set<Path>, remoteHost: string, file: string)
    requires ZipFile(lib, file) !in existing
    ensures Zip(t, lib, existing, remoteHost, file) == RouteResult(NotFound, t, None)
  {
  }

  /** A hash with no version, or whose map is missing or deleted, is not found. */
  lemma ZipUnknownOrDeletedNotFound(t: Tables, lib: Library, existing: set<Path>, remoteHost: string, file: string)
    requires file !in t.versions || t.versions[file].mapId !in t.maps || t.maps[t.versions[file].mapId].deleted
    ensures Zip(t, lib, existing, remoteHost, file) == RouteResult(NotFound, t, None)
  {
  }

  /** A key that `toInt(16)` rejects (empty, a non-digit, or out of `Int`
      range) is not found by either key route, with the store untouched. */
  lemma UnparsableKeyNotFound(t: Tables, lib: Library, firstRow: set<string> -> string, existing: set<Path>,
                              remoteHost: string, key: string)
    requires ParseInt16(key).None?
    ensures BeatSaver(t, lib, firstRow, existing, remoteHost, key) == RouteResult(NotFound, t, None)
    ensures BsAudio(t, lib, firstRow, key) == NotFound
  {
  }

  /** A deleted map is not found by either addressing mode, whatever the
      state of its versions. */
  lemma {:induction false} DeletedMapNotFound(t: Tables, lib: Library, firstRow: set<string> -> string,
                                              existing: set<Path>, remoteHost: string, id: int32)
    requires id in t.maps && t.maps[id].deleted
    ensures forall key | ParseInt16(key) == Some(id) ::
      BeatSaver(t, lib, firstRow, existing, remoteHost, key).response == NotFound
      && BsAudio(t, lib, firstRow, key) == NotFound
    ensures forall hash | hash in t.versions && t.versions[hash].mapId == id ::
      Zip(t, lib, existing, remoteHost, hash).response == NotFound
  {
    forall hash | hash in t.versions && t.versions[hash].mapId == id
      ensures Zip(t, lib, existing, remoteHost, hash).response == NotFound
    {
      ZipUnknownOrDeletedNotFound(t, lib, existing, remoteHost, hash);
    }
  }

  // ---------------------------------------------------------------------------
  // Resolution by hash

  /** The hash route serves exactly when the identifier is not blank, the
      archive is on disk and the version's map is visible; it then serves that
      archive under the map's cached or freshly computed name, writes that
      name back, and publishes one hash notification. */
  lemma ZipServesIff(t: Tables, lib: Library, existing: set<Path>, remoteHost: string, file: string)
    ensures var r := Zip(t, lib, existing, remoteHost, file);
      && (r.response.Serve? <==> !IsBlank(file) && ZipFile(lib, file) in existing && VisibleMapOf(t, file).Some?)
      && (r.notification.Some? <==> r.response.Serve?)
      && r.tables.versions == t.versions
      && (r.response.Serve? ==>
            var id := VisibleMapOf(t, file).value;
            && r.response.file == ZipFile(lib, file)
            && r.response.name == Some(ReadThroughFileName(lib, t.maps, id).name)
            && r.tables.maps == ReadThroughFileName(lib, t.maps, id).maps
            && r.tables.maps[id].fileName == r.response.name
            && r.notification == Some(HashDownload(file, remoteHost)))
      && (r.response.NotFound? ==> r.tables == t)
  {
  }

  /** The cache fill is idempotent: a second read returns the same name and
      writes nothing. */
  lemma {:induction false} ReadThroughIdempotent(lib: Library, maps: map<int32, MapRow>, id: int32)
    requires id in maps
    ensures var f := ReadThroughFileName(lib, maps, id);
      id in f.maps && ReadThroughFileName(lib, f.maps, id) == Fill(f.name, f.maps)
  {
    var f := ReadThroughFileName(lib, maps, id);
    assert f.maps[id].fileName == Some(f.name);
  }

  /** Repeating a hash request gives the same response and leaves the store as
      the first request left it. */
  lemma {:induction false} ZipRepeatable(t: Tables, lib: Library, existing: set<Path>, remoteHost: string, file: string)
    ensures var r := Zip(t, lib, existing, remoteHost, file);
      var r2 := Zip(r.tables, lib, existing, remoteHost, file);
      r2.response == r.response && r2.tables == r.tables
  {
    var r := Zip(t, lib, existing, remoteHost, file);
    if r.response.Serve? {
      var id := VisibleMapOf(t, file).value;
      ReadThroughIdempotent(lib, t.maps, id);
      assert VisibleMapOf(r.tables, file) == Some(id);
    }
  }

  // ---------------------------------------------------------------------------
  // Resolution by legacy key

  /** A resolved key names a visible map and one of its published versions;
      with a single published version, that is the one. */
  lemma KeyLookupResolves(t: Tables, firstRow: set<string> -> string, key: string)
    requires PicksMember(firstRow)
    ensures KeyLookup(t, firstRow, key).Some? <==>
      ParseInt16(key).Some? && var id := ParseInt16(key).value;
        id in t.maps && !t.maps[id].deleted && PublishedOf(t.versions, id) != {}
    ensures KeyLookup(t, firstRow, key).Some? ==>
      var r := KeyLookup(t, firstRow, key).value;
      && ParseInt16(key) == Some(r.mapId)
      && r.hash in t.versions && t.versions[r.hash].mapId == r.mapId && t.versions[r.hash].published
  {
  }

  /** With at most one published version per map the key routes are
      deterministic: they pick that version. */
  lemma KeyLookupUnique(t: Tables, firstRow: set<string> -> string, key: string, hash: string)
    requires PicksMember(firstRow) && AtMostOnePublished(t.versions)
    requires ParseInt16(key).Some? && var id := ParseInt16(key).value;
      id in t.maps && !t.maps[id].deleted && hash in PublishedOf(t.versions, id)
    ensures KeyLookup(t, firstRow, key) == Some(Resolved(ParseInt16(key).value, hash))
  {
    var id := ParseInt16(key).value;
    var h' := firstRow(PublishedOf(t.versions, id));
    assert h' in PublishedOf(t.versions, id);
  }

  /** The key archive route serves the archive of the resolved version's hash
      (never a file named after the key), fills the filename cache whether or
      not the archive is on disk, and publishes a key notification exactly
      when the archive is on disk. */
  lemma BeatSaverServesResolvedHash(t: Tables, lib: Library, firstRow: set<string> -> string,
                                    existing: set<Path>, remoteHost: string, key: string)
    ensures var r := BeatSaver(t, lib, firstRow, existing, remoteHost, key);
      && (r.response.Serve? <==> KeyLookup(t, firstRow, key).Some?)
      && r.tables.versions == t.versions
      && (r.response.NotFound? ==> r.tables == t && r.notification.None?)
      && (r.response.Serve? ==>
            var k := KeyLookup(t, firstRow, key).value;
            && r.response.file == ZipFile(lib, k.hash)
            && r.response.name == Some(ReadThroughFileName(lib, t.maps, k.mapId).name)
            && r.tables.maps == ReadThroughFileName(lib, t.maps, k.mapId).maps
            && r.tables.maps[k.mapId].fileName == r.response.name
            && (r.notification.Some? <==> ZipFile(lib, k.hash) in existing)
            && (r.notification.Some? ==> r.notification.value == KeyDownload(key, remoteHost)))
  {
  }

  /** Whether the archive is on disk changes only the notification, never the
      response or the cache fill. */
  lemma BeatSaverFillIgnoresDisk(t: Tables, lib: Library, firstRow: set<string> -> string,
                                 existing1: set<Path>, existing2: set<Path>, remoteHost: string, key: string)
    ensures BeatSaver(t, lib, firstRow, existing1, remoteHost, key).response
         == BeatSaver(t, lib, firstRow, existing2, remoteHost, key).response
    ensures BeatSaver(t, lib, firstRow, existing1, remoteHost, key).tables
         == BeatSaver(t, lib, firstRow, existing2, remoteHost, key).tables
  {
  }

  /** The audio-by-key route serves exactly when the key parses to a map that
      is present, not deleted and published, and then it serves the preview of
      one of that map's published versions. */
  lemma {:induction false} BsAudioServesResolvedHash(t: Tables, lib: Library, firstRow: set<string> -> string,
                                                     key: string)
    requires PicksMember(firstRow)
    ensures BsAudio(t, lib, firstRow, key).Serve? <==>
      ParseInt16(key).Some? && var id := ParseInt16(key).value;
        id in t.maps && !t.maps[id].deleted && PublishedOf(t.versions, id) != {}
    ensures BsAudio(t, lib, firstRow, key).Serve? ==>
      var id, r := ParseInt16(key).value, BsAudio(t, lib, firstRow, key);
      && Stem(r.file.name) in PublishedOf(t.versions, id)
      && r == Serve(AudioFile(lib, Stem(r.file.name)), None)
  {
    KeyLookupResolves(t, firstRow, key);
  }

  /** The key the system hands out for a map with a non-negative id,
      `toHexString(id)`, brings the key routes back to that map's single
      published version. */
  lemma {:induction false} LegacyKeyResolves(t: Tables, firstRow: set<string> -> string, id: int32, hash: string)
    requires PicksMember(firstRow)
    requires id >= 0 && id in t.maps && !t.maps[id].deleted && PublishedOf(t.versions, id) == {hash}
    ensures KeyLookup(t, firstRow, ToHexString(id)) == Some(Resolved(id, hash))
  {
    HexRoundTrip(id);
    assert firstRow(PublishedOf(t.versions, id)) in PublishedOf(t.versions, id);
  }

  // ---------------------------------------------------------------------------
  // Static assets

  /** Distinct users never share an avatar file. */
  lemma AvatarFilesDistinct(lib: Library, a: int64, b: int64)
    requires a != b
    ensures Avatar(lib, a).file != Avatar(lib, b).file
    ensures AvatarSimple(lib, a).file != AvatarSimple(lib, b).file
  {
    if Avatar(lib, a).file == Avatar(lib, b).file || AvatarSimple(lib, a).file == AvatarSimple(lib, b).file {
      LongToStringInjective(a, b);
    }
  }
}

/** The metadata store as the running service holds it: one object whose two
    tables the sync consumer and the route handlers update in place. Each
    method is one transaction and is proved against the corresponding function
    of `Sync` or `Routes`. */
module Database {
  import opened Kotlin
  import opened Schema
  import opened Common
  import Sync
  import Routes

  class Store {
    var maps: map<int32, MapRow>
    var versions: map<string, VersionRow>

    /** The store as a value. */
    function Contents(): Tables
      reads this
    {
      Tables(maps, versions)
    }

    /** The schema's constraints, which the database keeps at all times. */
    ghost predicate Valid()
      reads this
    {
      WellFormed(Contents())
    }

    constructor ()
      ensures Valid() && Contents() == Tables(map[], map[])
    {
      maps := map[];
      versions := map[];
    }

    /** `MapTable.upsert` for one `CDNUpdate`, in place. Refused (and nothing
        written) when the row is new and a name is missing. */
    method UpsertMapRow(lib: Library, e: Sync.CdnUpdate) returns (ok: bool)
      requires Valid()
      modifies this
      ensures Valid()
      ensures ok <==> Sync.UpsertMap(lib, old(maps), e).Some?
      ensures ok ==> maps == Sync.UpsertMap(lib, old(maps), e).value
      ensures !ok ==> maps == old(maps)
      ensures versions == old(versions)
    {
      var id := e.mapId;
      var row: MapRow;
      if id in maps {
        row := maps[id];
      } else if Sync.HasBothNames(e) {
        row := MapRow(None, e.songName.value, e.levelAuthorName.value, e.deleted);
      } else {
        return false;
      }
      if Sync.HasBothNames(e) {
        row := row.(fileName := Some(DownloadName(lib, id, e.songName.value, e.levelAuthorName.value)));
      }
      if e.songName.Some? {
        row := row.(songName := e.songName.value);
      }
      if e.levelAuthorName.Some? {
        row := row.(levelAuthorName := e.levelAuthorName.value);
      }
      row := row.(deleted := e.deleted);
      maps := maps[id := row];
      ok := true;
    }

    /** The version statements for a hash, in place: when the event publishes,
        unpublish map `id`'s other versions, then `VersionTable.upsert`. The
        map must exist (the `mapId` foreign key). A refused upsert leaves the
        demotion written; the caller rolls back. */
    method UpsertVersionRow(id: int32, hash: string, published: Option<bool>) returns (ok: bool)
      requires Valid() && id in maps
      modifies this
      ensures Valid()
      ensures ok <==> Sync.VersionStep(old(versions), id, hash, published).Some?
      ensures ok ==> versions == Sync.VersionStep(old(versions), id, hash, published).value
      ensures !ok ==> versions == if published == Some(true) then Sync.Demote(old(versions), id, hash) else old(versions)
      ensures maps == old(maps)
    {
      // VersionTable.update: unpublish the map's other versions
      if published == Some(true) {
        versions := map h | h in versions ::
          if versions[h].mapId == id && h != hash then versions[h].(published := false) else versions[h];
      }
      // VersionTable.upsert
      if |hash| > HashLength || (hash !in versions && published.None?) {
        return false;
      }
      var p := if hash in versions then published.GetOr(versions[hash].published) else published.value;
      versions := versions[hash := VersionRow(id, p)];
      ok := true;
    }

    /** The consumer body for one `CDNUpdate`: upsert the map row, demote the
        map's other versions when the event publishes, upsert the version. A
        step the schema refuses rolls the whole transaction back. */
    method ApplyUpdate(lib: Library, e: Sync.CdnUpdate) returns (committed: bool)
      requires Valid()
      modifies this
      ensures Valid()
      ensures committed <==> Sync.Apply(lib, old(Contents()), e).Some?
      ensures committed ==> Contents() == Sync.Apply(lib, old(Contents()), e).value
      ensures !committed ==> Contents() == old(Contents())
    {
      var savedMaps, savedVersions := maps, versions;
      var ok := UpsertMapRow(lib, e);
      if !ok {
        return false;
      }
      if e.hash.Some? {
        ok := UpsertVersionRow(e.mapId, e.hash.value, e.published);
        if !ok {
          maps, versions := savedMaps, savedVersions;
          return false;
        }
      }
      Sync.ApplyPreservesWellFormed(lib, old(Contents()), e);
      committed := true;
    }

    /** The read-through cache fill of both archive routes: the stored
        `fileName` of map `id`, or the computed name, written back. */
    method FileNameFor(lib: Library, id: int32) returns (name: string)
      requires Valid() && id in maps
      modifies this
      ensures Valid()
      ensures var f := Routes.ReadThroughFileName(lib, old(maps), id);
        name == f.name && maps == f.maps && versions == old(versions)
    {
      if maps[id].fileName.Some? {
        name := maps[id].fileName.value;
      } else {
        name := DownloadName(lib, id, maps[id].songName, maps[id].levelAuthorName);
        maps := maps[id := maps[id].(fileName := Some(name))];
      }
    }

    /** `get<CDN.Zip>`. */
    method GetZip(lib: Library, existing: set<Path>, remoteHost: string, file: string)
      returns (response: Routes.Response, notification: Option<Notification>)
      requires Valid()
      modifies this
      ensures Valid()
      ensures var r := Routes.Zip(old(Contents()), lib, existing, remoteHost, file);
        response == r.response && notification == r.notification && Contents() == r.tables
    {
      if IsBlank(file) {
        return Routes.NotFound, None;
      }
      var path := Routes.ZipFile(lib, file);
      if path !in existing {
        return Routes.NotFound, None;
      }
      if file !in versions || versions[file].mapId !in maps || maps[versions[file].mapId].deleted {
        return Routes.NotFound, None;
      }
      var name := FileNameFor(lib, versions[file].mapId);
      notification := Some(HashDownload(file, remoteHost));
      response := Routes.Serve(path, Some(name));
    }

    /** The key routes' query: the map `key` denotes and the hash of the
        published version the join returns first. */
    method LookupKey(firstRow: set<string> -> string, key: string) returns (r: Option<Routes.Resolved>)
      ensures r == Routes.KeyLookup(Contents(), firstRow, key)
    {
      var parsed := ParseInt16(key);
      if parsed.None? {
        return None;
      }
      var id := parsed.value;
      if id !in maps || maps[id].deleted {
        return None;
      }
      var published := set h | h in versions && versions[h].mapId == id && versions[h].published;
      if published == {} {
        return None;
      }
      return Some(Routes.Resolved(id, firstRow(published)));
    }

    /** `get<CDN.BeatSaver>`. */
    method GetBeatSaver(lib: Library, firstRow: set<string> -> string, existing: set<Path>,
                        remoteHost: string, key: string)
      returns (response: Routes.Response, notification: Option<Notification>)
      requires Valid()
      modifies this
      ensures Valid()
      ensures var r := Routes.BeatSaver(old(Contents()), lib, firstRow, existing, remoteHost, key);
        response == r.response && notification == r.notification && Contents() == r.tables
    {
      var resolved := LookupKey(firstRow, key);
      if resolved.None? {
        return Routes.NotFound, None;
      }
      var path := Routes.ZipFile(lib, resolved.value.hash);
      notification := if path in existing then Some(KeyDownload(key, remoteHost)) else None;
      var name := FileNameFor(lib, resolved.value.mapId);
      response := Routes.Serve(path, Some(name));
    }

    /** `get<CDN.BSAudio>`: reads the store and changes nothing. */
    method GetBsAudio(lib: Library, firstRow: set<string> -> string, key: string) returns (response: Routes.Response)
      ensures response == Routes.BsAudio(Contents(), lib, firstRow, key)
    {
      var resolved := LookupKey(firstRow, key);
      if resolved.None? {
        return Routes.NotFound;
      }
      response := Routes.Serve(Routes.AudioFile(lib, resolved.value.hash), None);
    }
  }
}

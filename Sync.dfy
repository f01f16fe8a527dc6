/** The metadata sync consumer: how one `CDNUpdate` message changes the store.
    The functions here are the specification of `Database.Store.ApplyUpdate`;
    the lemmas state what one event does and what it keeps. */
module Sync {
  import opened Kotlin
  import opened Schema
  import opened Common

  /** `CDNUpdate`: a change notification from the system of record. */
  datatype CdnUpdate = CdnUpdate(
    mapId: int32,
    songName: Option<string>,
    levelAuthorName: Option<string>,
    deleted: bool,
    hash: Option<string>,
    published: Option<bool>)

  predicate HasBothNames(e: CdnUpdate) {
    e.songName.Some? && e.levelAuthorName.Some?
  }

  /** `MapTable.upsert` keyed by `mapId`. `None` when the row is new and a
      name is missing, which the non-null name columns refuse. */
  function UpsertMap(lib: Library, maps: map<int32, MapRow>, e: CdnUpdate): (r: Option<map<int32, MapRow>>)
    ensures r.Some? <==> e.mapId in maps || HasBothNames(e)
    ensures r.Some? ==> r.value.Keys == maps.Keys + {e.mapId} && r.value[e.mapId].deleted == e.deleted
    ensures r.Some? ==> forall id | id in maps && id != e.mapId :: r.value[id] == maps[id]
  {
    if e.mapId !in maps && !HasBothNames(e) then None
    else
      var stored := if e.mapId in maps then maps[e.mapId] else MapRow(None, "", "", false);
      var fileName :=
        if HasBothNames(e) then Some(DownloadName(lib, e.mapId, e.songName.value, e.levelAuthorName.value))
        else stored.fileName;
      var row := MapRow(fileName, e.songName.GetOr(stored.songName),
                        e.levelAuthorName.GetOr(stored.levelAuthorName), e.deleted);
      Some(maps[e.mapId := row])
  }

  /** The bulk `VersionTable.update`: every version of map `id` other than
      `hash` becomes unpublished. */
  function Demote(versions: map<string, VersionRow>, id: int32, hash: string): (r: map<string, VersionRow>)
    ensures r.Keys == versions.Keys
    ensures forall h | h in r :: r[h].mapId == versions[h].mapId
    ensures PublishedOf(r, id) <= {hash}
    ensures forall other | other != id :: PublishedOf(r, other) == PublishedOf(versions, other)
    ensures hash in versions ==> r[hash] == versions[hash]
  {
    map h | h in versions ::
      if versions[h].mapId == id && h != hash then versions[h].(published := false) else versions[h]
  }

  /** `VersionTable.upsert` keyed by `hash`. `None` when the hash does not fit
      its column, or the row is new and `published` is missing. */
  function UpsertVersion(versions: map<string, VersionRow>, id: int32, hash: string, published: Option<bool>)
    : (r: Option<map<string, VersionRow>>)
    ensures r.Some? <==> |hash| <= HashLength && (hash in versions || published.Some?)
    ensures r.Some? ==> r.value.Keys == versions.Keys + {hash} && r.value[hash].mapId == id
    ensures r.Some? && published.Some? ==> r.value[hash].published == published.value
    ensures r.Some? && published.None? ==> r.value[hash].published == versions[hash].published
    ensures r.Some? ==> forall h | h in versions && h != hash :: r.value[h] == versions[h]
  {
    if |hash| > HashLength then None
    else if hash in versions then
      Some(versions[hash := VersionRow(id, published.GetOr(versions[hash].published))])
    else if published.Some? then
      Some(versions[hash := VersionRow(id, published.value)])
    else None
  }

  /** The event's version statement: demote when it publishes, then upsert. */
  function VersionStep(versions: map<string, VersionRow>, id: int32, hash: string, published: Option<bool>)
    : (r: Option<map<string, VersionRow>>)
    ensures r.Some? <==> |hash| <= HashLength && (hash in versions || published.Some?)
    ensures r.Some? ==> r.value.Keys == versions.Keys + {hash} && r.value[hash].mapId == id
    ensures r.Some? && published.Some? ==> r.value[hash].published == published.value
    ensures r.Some? && published.None? ==> r.value[hash].published == versions[hash].published
    ensures r.Some? ==> forall h | h in versions && h != hash && versions[h].mapId == id ::
      r.value[h] == if published == Some(true) then versions[h].(published := false) else versions[h]
    ensures r.Some? ==> forall h | h in versions && h != hash && versions[h].mapId != id ::
      r.value[h] == versions[h]
  {
    var demoted := if published == Some(true) then Demote(versions, id, hash) else versions;
    UpsertVersion(demoted, id, hash, published)
  }

  /** One event as one transaction: the new store, or `None` when a step
      fails and the whole transaction rolls back. */
  function Apply(lib: Library, t: Tables, e: CdnUpdate): (r: Option<Tables>)
    ensures r.Some? ==> e.mapId in r.value.maps && r.value.maps[e.mapId].deleted == e.deleted
    ensures r.Some? && e.hash.Some? ==>
      e.hash.value in r.value.versions && r.value.versions[e.hash.value].mapId == e.mapId
    ensures r.Some? ==> r.value.maps.Keys == t.maps.Keys + {e.mapId}
  {
    match UpsertMap(lib, t.maps, e)
    case None => None
    case Some(maps) =>
      match e.hash
      case None => Some(Tables(maps, t.versions))
      case Some(hash) =>
        match VersionStep(t.versions, e.mapId, hash, e.published)
        case None => None
        case Some(versions) => Some(Tables(maps, versions))
  }

  // ---------------------------------------------------------------------------
  // What one event does

  /** An event commits unless it would insert a map without both names, or
      carry a hash that is too long or new without a `published` flag. */
  lemma ApplyCommitsIff(lib: Library, t: Tables, e: CdnUpdate)
    ensures Apply(lib, t, e).Some? <==>
      && (e.mapId in t.maps || HasBothNames(e))
      && (e.hash.Some? ==> |e.hash.value| <= HashLength && (e.hash.value in t.versions || e.published.Some?))
  {
  }

  /** After a committed event the map row exists with the event's `deleted`;
      each name is overwritten only when the event carries it; the filename is
      recomputed exactly when both names are present; no other map row changes. */
  lemma ApplyUpdatesMapRow(lib: Library, t: Tables, e: CdnUpdate)
    requires Apply(lib, t, e).Some?
    ensures var t' := Apply(lib, t, e).value;
      && t'.maps.Keys == t.maps.Keys + {e.mapId}
      && t'.maps[e.mapId].deleted == e.deleted
      && (e.songName.Some? ==> t'.maps[e.mapId].songName == e.songName.value)
      && (e.songName.None? ==> t'.maps[e.mapId].songName == t.maps[e.mapId].songName)
      && (e.levelAuthorName.Some? ==> t'.maps[e.mapId].levelAuthorName == e.levelAuthorName.value)
      && (e.levelAuthorName.None? ==> t'.maps[e.mapId].levelAuthorName == t.maps[e.mapId].levelAuthorName)
      && (HasBothNames(e) ==>
            t'.maps[e.mapId].fileName == Some(DownloadName(lib, e.mapId, e.songName.value, e.levelAuthorName.value)))
      && (!HasBothNames(e) ==> t'.maps[e.mapId].fileName == t.maps[e.mapId].fileName)
      && (forall id | id in t.maps && id != e.mapId :: t'.maps[id] == t.maps[id])
  {
  }

  /** An event without a hash (a deletion) leaves the version table alone. */
  lemma ApplyWithoutHashKeepsVersions(lib: Library, t: Tables, e: CdnUpdate)
    requires Apply(lib, t, e).Some? && e.hash.None?
    ensures Apply(lib, t, e).value.versions == t.versions
  {
  }

  /** With a hash, the version row is upserted: it belongs to the event's map
      and keeps its stored `published` unless the event gives one. Other
      versions of the same map are unpublished when the event publishes, and
      versions of other maps do not change. */
  lemma ApplyUpdatesVersions(lib: Library, t: Tables, e: CdnUpdate)
    requires Apply(lib, t, e).Some? && e.hash.Some?
    ensures var t', hash := Apply(lib, t, e).value, e.hash.value;
      && t'.versions.Keys == t.versions.Keys + {hash}
      && t'.versions[hash].mapId == e.mapId
      && (e.published.Some? ==> t'.versions[hash].published == e.published.value)
      && (e.published.None? ==> t'.versions[hash].published == t.versions[hash].published)
      && (forall h | h in t.versions && h != hash && t.versions[h].mapId == e.mapId ::
            t'.versions[h] == if e.published == Some(true) then t.versions[h].(published := false) else t.versions[h])
      && (forall h | h in t.versions && h != hash && t.versions[h].mapId != e.mapId ::
            t'.versions[h] == t.versions[h])
  {
  }

  /** An event that publishes a hash leaves it the only published version of
      its map. */
  lemma {:induction false} ApplyPublishesUniquely(lib: Library, t: Tables, e: CdnUpdate)
    requires Apply(lib, t, e).Some? && e.hash.Some? && e.published == Some(true)
    ensures PublishedOf(Apply(lib, t, e).value.versions, e.mapId) == {e.hash.value}
  {
    var t', hash := Apply(lib, t, e).value, e.hash.value;
    ApplyUpdatesVersions(lib, t, e);
    assert hash in PublishedOf(t'.versions, e.mapId);
  }

  lemma {:induction false} UpsertMapIdempotent(lib: Library, maps: map<int32, MapRow>, e: CdnUpdate)
    requires UpsertMap(lib, maps, e).Some?
    ensures UpsertMap(lib, UpsertMap(lib, maps, e).value, e) == UpsertMap(lib, maps, e)
  {
    var m := UpsertMap(lib, maps, e).value;
    var row := m[e.mapId];
    assert UpsertMap(lib, m, e) == Some(m[e.mapId := row]);
    assert m[e.mapId := row] == m;
  }

  lemma {:induction false} VersionStepIdempotent(versions: map<string, VersionRow>, id: int32, hash: string,
                                                 published: Option<bool>)
    requires VersionStep(versions, id, hash, published).Some?
    ensures VersionStep(VersionStep(versions, id, hash, published).value, id, hash, published)
         == VersionStep(versions, id, hash, published)
  {
    var v := VersionStep(versions, id, hash, published).value;
    var demoted := if published == Some(true) then Demote(v, id, hash) else v;
    assert demoted == v;
    var row := v[hash];
    assert UpsertVersion(demoted, id, hash, published) == Some(v[hash := row]);
    assert v[hash := row] == v;
  }

  /** Replaying a committed event changes nothing: there are only assignments. */
  lemma {:induction false} ApplyIdempotent(lib: Library, t: Tables, e: CdnUpdate)
    requires Apply(lib, t, e).Some?
    ensures Apply(lib, Apply(lib, t, e).value, e) == Apply(lib, t, e)
  {
    UpsertMapIdempotent(lib, t.maps, e);
    if e.hash.Some? {
      VersionStepIdempotent(t.versions, e.mapId, e.hash.value, e.published);
    }
  }

  // ---------------------------------------------------------------------------
  // What one event keeps

  /** A committed event keeps every hash within its column and every
      version's map reference valid. */
  lemma ApplyPreservesWellFormed(lib: Library, t: Tables, e: CdnUpdate)
    requires WellFormed(t) && Apply(lib, t, e).Some?
    ensures WellFormed(Apply(lib, t, e).value)
  {
  }

  /** An event that does not publish leaves an already published version where
      it was: it names a new hash, gives `published`, or keeps the hash's map. */
  predicate KeepsPublishedInPlace(t: Tables, e: CdnUpdate) {
    (e.hash.Some? && e.published.None? && e.hash.value in t.versions && t.versions[e.hash.value].published)
    ==> t.versions[e.hash.value].mapId == e.mapId
  }

  /** At most one published version per map survives any event that does not
      move a published version to another map. */
  lemma {:induction false} ApplyPreservesAtMostOnePublished(lib: Library, t: Tables, e: CdnUpdate)
    requires AtMostOnePublished(t.versions) && KeepsPublishedInPlace(t, e)
    requires Apply(lib, t, e).Some?
    ensures AtMostOnePublished(Apply(lib, t, e).value.versions)
  {
    var t' := Apply(lib, t, e).value;
    if e.hash.Some? {
      var hash := e.hash.value;
      ApplyUpdatesVersions(lib, t, e);
      forall h1, h2 | h1 in t'.versions && h2 in t'.versions
        && t'.versions[h1].published && t'.versions[h2].published
        && t'.versions[h1].mapId == t'.versions[h2].mapId
        ensures h1 == h2
      {
        if h1 != hash && h2 != hash {
          assert t.versions[h1].published && t.versions[h2].published;
        }
      }
    }
  }

  /** Without that side condition the invariant can break: a hash-only event
      that moves map 1's published version to map 2 leaves map 2 with two. */
  lemma MovingPublishedVersionBreaksUniqueness(lib: Library)
    ensures var t := Tables(map[1 := MapRow(None, "s", "a", false), 2 := MapRow(None, "s", "a", false)],
                            map["a" := VersionRow(1, true), "b" := VersionRow(2, true)]);
            var e := CdnUpdate(2, None, None, false, Some("a"), None);
            && AtMostOnePublished(t.versions)
            && Apply(lib, t, e).Some?
            && !AtMostOnePublished(Apply(lib, t, e).value.versions)
  {
    var t := Tables(map[1 := MapRow(None, "s", "a", false), 2 := MapRow(None, "s", "a", false)],
                    map["a" := VersionRow(1, true), "b" := VersionRow(2, true)]);
    var e := CdnUpdate(2, None, None, false, Some("a"), None);
    var t' := Apply(lib, t, e).value;
    assert t'.versions["a"] == VersionRow(2, true) && t'.versions["b"] == VersionRow(2, true);
    assert "a" != "b";
  }
}

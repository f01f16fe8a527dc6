/** The two tables of the metadata store and the constraints the database
    schema puts on them. */
module Schema {
  import opened Kotlin

  /** Width of the `hash` column (`char(40)`). */
  const HashLength := 40

  /** A row of `map` (the `MapDao` view), keyed by its `Int` id. `fileName` is
      `None` until the download filename has been computed; the other columns
      are non-null. */
  datatype MapRow = MapRow(fileName: Option<string>, songName: string, levelAuthorName: string, deleted: bool)

  /** A row of `version` (the `VersionDao` view), keyed by its hash. */
  datatype VersionRow = VersionRow(mapId: int32, published: bool)

  /** The whole store. */
  datatype Tables = Tables(maps: map<int32, MapRow>, versions: map<string, VersionRow>)

  /** What the schema enforces: a hash fits its column, and every version's
      `mapId` references an existing map (a foreign key). So a map with a
      published version always has a row. */
  predicate WellFormed(t: Tables)
    ensures WellFormed(t) ==> forall id | PublishedOf(t.versions, id) != {} :: id in t.maps
  {
    && (forall h | h in t.versions :: |h| <= HashLength)
    && (forall h | h in t.versions :: t.versions[h].mapId in t.maps)
  }

  /** The published versions of map `id`. */
  function PublishedOf(versions: map<string, VersionRow>, id: int32): (s: set<string>)
    ensures forall h | h in s :: h in versions && versions[h].mapId == id && versions[h].published
  {
    set h | h in versions && versions[h].mapId == id && versions[h].published
  }

  /** At most one version of each map is published. */
  predicate AtMostOnePublished(versions: map<string, VersionRow>) {
    forall h1, h2 | h1 in versions && h2 in versions ::
      versions[h1].published && versions[h2].published && versions[h1].mapId == versions[h2].mapId ==> h1 == h2
  }

  /** The invariant says, map by map, that a map has no more than one
      published version. */
  lemma {:induction false} AtMostOnePublishedIff(versions: map<string, VersionRow>)
    ensures AtMostOnePublished(versions) <==> forall id :: |PublishedOf(versions, id)| <= 1
  {
    if AtMostOnePublished(versions) {
      forall id ensures |PublishedOf(versions, id)| <= 1 {
        var s := PublishedOf(versions, id);
        if s != {} {
          var h :| h in s;
          assert s == {h};
        }
      }
    } else {
      var h1, h2 :| h1 in versions && h2 in versions && versions[h1].published && versions[h2].published
        && versions[h1].mapId == versions[h2].mapId && h1 != h2;
      var s := PublishedOf(versions, versions[h1].mapId);
      assert {h1, h2} <= s;
      assert |s - {h1}| == |s| - 1;
      assert h2 in s - {h1};
    }
  }
}

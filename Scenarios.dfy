/** What a short history of concrete events does to the store and to the
    routes: a map is published, republished under a new hash, looked up by a
    malformed key, and deleted. */
module Scenarios {
  import opened Kotlin
  import opened Schema
  import opened Common
  import opened Sync
  import opened Routes
  import Database

  const HashA := "aaaaaaaaaaaaaaaaaaaaaaaaaaaaaaaaaaaaaaaa"
  const HashB := "bbbbbbbbbbbbbbbbbbbbbbbbbbbbbbbbbbbbbbbb"

  /** Map 1, "Foo" by "Bar", first published as `HashA`. */
  function Publish(hash: string): CdnUpdate {
    CdnUpdate(1, Some("Foo"), Some("Bar"), false, Some(hash), Some(true))
  }

  /** A deletion: no hash, no names. */
  const Delete := CdnUpdate(1, None, None, true, None, None)

  lemma KeyOneIsMapOne()
    ensures ToHexString(1) == "1" && ParseInt16("1") == Some(1)
  {
    assert HexValue("1") == 1 by { assert "1"[..0] == []; }
  }

  /** The store after the first publication of map 1. */
  function AfterFirst(lib: Library): Tables {
    Tables(map[1 := MapRow(Some(lib.downloadFilename("1", "Foo", "Bar")), "Foo", "Bar", false)],
           map[HashA := VersionRow(1, true)])
  }

  lemma {:induction false} FirstPublicationStore(lib: Library)
    ensures Apply(lib, Tables(map[], map[]), Publish(HashA)) == Some(AfterFirst(lib))
  {
    KeyOneIsMapOne();
    var t := Apply(lib, Tables(map[], map[]), Publish(HashA)).value;
    assert t.maps == AfterFirst(lib).maps;
    assert t.versions == AfterFirst(lib).versions;
  }

  /** Publishing into an empty store creates the map with the filename derived
      from 1/Foo/Bar and a published version, which the hash route serves. */
  lemma {:induction false} FirstPublication(lib: Library, existing: set<Path>, remoteHost: string)
    requires ZipFile(lib, HashA) in existing
    ensures Apply(lib, Tables(map[], map[]), Publish(HashA)).Some?
    ensures var t := Apply(lib, Tables(map[], map[]), Publish(HashA)).value;
      && t.versions == map[HashA := VersionRow(1, true)]
      && t.maps[1] == MapRow(Some(lib.downloadFilename("1", "Foo", "Bar")), "Foo", "Bar", false)
      && Zip(t, lib, existing, remoteHost, HashA).response
         == Serve(ZipFile(lib, HashA), Some(lib.downloadFilename("1", "Foo", "Bar")))
  {
    KeyOneIsMapOne();
    var t := Apply(lib, Tables(map[], map[]), Publish(HashA)).value;
    assert !IsBlank(HashA) by { assert !IsWhitespace(HashA[0]); }
    assert VisibleMapOf(t, HashA) == Some(1);
  }

  /** Publishing a second hash unpublishes the first, and the legacy key "1"
      then serves the second hash's archive. */
  lemma {:induction false} Republication(lib: Library, firstRow: set<string> -> string, existing: set<Path>,
                                         remoteHost: string)
    requires PicksMember(firstRow)
    ensures var t1 := Apply(lib, Tables(map[], map[]), Publish(HashA)).value;
      && Apply(lib, t1, Publish(HashB)).Some?
      && var t2 := Apply(lib, t1, Publish(HashB)).value;
      && t2.versions == map[HashA := VersionRow(1, false), HashB := VersionRow(1, true)]
      && BeatSaver(t2, lib, firstRow, existing, remoteHost, "1").response
         == Serve(ZipFile(lib, HashB), Some(lib.downloadFilename("1", "Foo", "Bar")))
  {
    KeyOneIsMapOne();
    FirstPublicationStore(lib);
    var t1 := AfterFirst(lib);
    var t2 := Apply(lib, t1, Publish(HashB)).value;
    assert HashA != HashB by { assert HashA[0] != HashB[0]; }
    assert t2.versions == map[HashA := VersionRow(1, false), HashB := VersionRow(1, true)];
    ApplyPublishesUniquely(lib, t1, Publish(HashB));
    assert PublishedOf(t2.versions, 1) == {HashB};
  }

  /** "zzz" is not a base-16 number: not found, store untouched. */
  lemma MalformedKey(t: Tables, lib: Library, firstRow: set<string> -> string, existing: set<Path>, remoteHost: string)
    ensures BeatSaver(t, lib, firstRow, existing, remoteHost, "zzz") == RouteResult(NotFound, t, None)
  {
    assert "zzz"[0] == 'z' && !IsHexDigit('z');
  }

  /** A deletion marks the map deleted and keeps its versions, and both
      addressing modes stop resolving it. */
  lemma {:induction false} Deletion(lib: Library, firstRow: set<string> -> string, existing: set<Path>,
                                    remoteHost: string)
    ensures var t1 := Apply(lib, Tables(map[], map[]), Publish(HashA)).value;
      && Apply(lib, t1, Delete).Some?
      && var t2 := Apply(lib, t1, Delete).value;
      && t2.versions == t1.versions
      && t2.maps[1].deleted
      && Zip(t2, lib, existing, remoteHost, HashA).response == NotFound
      && BeatSaver(t2, lib, firstRow, existing, remoteHost, "1").response == NotFound
  {
    KeyOneIsMapOne();
    var t1 := Apply(lib, Tables(map[], map[]), Publish(HashA)).value;
    var t2 := Apply(lib, t1, Delete).value;
    DeletedMapNotFound(t2, lib, firstRow, existing, remoteHost, 1);
  }

  /** The same history driven through the store object. */
  method StoreHistory(lib: Library, firstRow: set<string> -> string, existing: set<Path>, remoteHost: string)
    requires PicksMember(firstRow)
  {
    var t1 := Apply(lib, Tables(map[], map[]), Publish(HashA)).value;
    Republication(lib, firstRow, existing, remoteHost);
    var t2 := Apply(lib, t1, Publish(HashB)).value;
    var store := new Database.Store();
    var ok := store.ApplyUpdate(lib, Publish(HashA));
    assert ok && store.Contents() == t1;
    ok := store.ApplyUpdate(lib, Publish(HashB));
    assert ok && store.Contents() == t2;
    var response, note := store.GetBeatSaver(lib, firstRow, existing, remoteHost, "1");
    assert response == Serve(ZipFile(lib, HashB), Some(lib.downloadFilename("1", "Foo", "Bar")));
  }

  /** Deleting through the store object: the key route stops resolving. */
  method StoreDeletion(lib: Library, firstRow: set<string> -> string, existing: set<Path>, remoteHost: string)
  {
    var t1 := Apply(lib, Tables(map[], map[]), Publish(HashA)).value;
    Deletion(lib, firstRow, existing, remoteHost);
    var t2 := Apply(lib, t1, Delete).value;
    var store := new Database.Store();
    var ok := store.ApplyUpdate(lib, Publish(HashA));
    assert ok && store.Contents() == t1;
    ok := store.ApplyUpdate(lib, Delete);
    assert ok && store.Contents() == t2;
    var response, note := store.GetBeatSaver(lib, firstRow, existing, remoteHost, "1");
    assert response == NotFound && note == None;
  }
}

/** The helpers the gateway takes from its shared library (`io.beatmaps.common`)
    and from the JVM. Their code is not part of this model, so each one is a
    parameter: a `Library` value holds the functions the routes and the sync
    consumer call, and every result is stated in terms of them. */
module Common {
  import opened Kotlin

  /** `java.io.File(parent, child)`: a file named `name` inside `dir`. */
  datatype Path = Path(dir: string, name: string)

  /** A file name without its four-character extension (".zip", ".mp3",
      ".jpg", ".png"). */
  function Stem(name: string): string {
    if |name| < 4 then "" else name[..|name| - 4]
  }

  /** The shared helpers: `downloadFilename` and the `local*Folder` functions. */
  datatype Library = Library(
    downloadFilename: (string, string, string) -> string,
    localFolder: string -> string,
    localCoverFolder: string -> string,
    localAudioFolder: string -> string,
    localPlaylistCoverFolder: string,
    localAvatarFolder: string)

  /** `downloadFilename(toHexString(id), songName, levelAuthorName)`: the display
      filename of map `id`, computed the same way by the consumer and the routes.
      Its first argument is the map's legacy key, which parses back to `id`. */
  function DownloadName(lib: Library, id: int32, songName: string, levelAuthorName: string): (name: string)
    ensures id >= 0 ==> exists key | ParseInt16(key) == Some(id) ::
      name == lib.downloadFilename(key, songName, levelAuthorName)
  {
    if id >= 0 then
      HexRoundTrip(id);
      lib.downloadFilename(ToHexString(id), songName, levelAuthorName)
    else
      lib.downloadFilename(ToHexString(id), songName, levelAuthorName)
  }

  /** `DownloadType`: whether a download was addressed by hash or by key. */
  datatype DownloadType = Hash | Key

  /** `DownloadInfo`: the payload of a download notification. */
  datatype DownloadInfo = DownloadInfo(identifier: string, kind: DownloadType, remoteHost: string)

  /** One `call.pub(exchange, routingKey, null, info)`. */
  datatype Notification = Notification(exchange: string, routingKey: string, info: DownloadInfo)

  const Exchange := "beatmaps"

  const HashPrefix := "download.hash."
  const KeyPrefix := "download.key."

  /** The routing key names the kind of download and the identifier that the
      payload carries. */
  predicate RoutingKeyAgrees(n: Notification) {
    n.routingKey == (if n.info.kind == Hash then HashPrefix else KeyPrefix) + n.info.identifier
  }

  /** The notification the hash route publishes for `file`. */
  function HashDownload(file: string, remoteHost: string): (n: Notification)
    ensures n.exchange == Exchange && RoutingKeyAgrees(n)
    ensures n.info.identifier == file && n.info.kind == Hash && n.info.remoteHost == remoteHost
  {
    Notification(Exchange, HashPrefix + file, DownloadInfo(file, Hash, remoteHost))
  }

  /** The notification the key route publishes for `key`. */
  function KeyDownload(key: string, remoteHost: string): (n: Notification)
    ensures n.exchange == Exchange && RoutingKeyAgrees(n)
    ensures n.info.identifier == key && n.info.kind == Key && n.info.remoteHost == remoteHost
  {
    Notification(Exchange, KeyPrefix + key, DownloadInfo(key, Key, remoteHost))
  }

  /** A consumer of the exchange can tell from the routing key alone how a
      download was addressed and by which identifier. */
  lemma {:induction false} RoutingKeyDeterminesDownload(a: Notification, b: Notification)
    requires RoutingKeyAgrees(a) && RoutingKeyAgrees(b) && a.routingKey == b.routingKey
    ensures a.info.kind == b.info.kind && a.info.identifier == b.info.identifier
  {
    var pa := if a.info.kind == Hash then HashPrefix else KeyPrefix;
    var pb := if b.info.kind == Hash then HashPrefix else KeyPrefix;
    assert a.routingKey[9] == pa[9] && b.routingKey[9] == pb[9];
    assert pa == pb;
    assert a.info.identifier == a.routingKey[|pa|..];
    assert b.info.identifier == b.routingKey[|pb|..];
  }
}

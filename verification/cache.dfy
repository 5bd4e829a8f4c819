/** The process-local content cache (extension.js:59-138): a list of
    records `{workspaceId, path, data, lastUsed}` with first-match lookup,
    a recency refresh on a hit, append on a miss and a time-threshold
    sweep. The clock is a parameter; a workspace fetch is an input. */
module Cache {
  import opened Optional

  datatype Entry = Entry(workspaceId: string, path: string, data: string, lastUsed: int)

  /** How long an entry survives without use, in milliseconds. */
  const Window: int := 180 * 1000

  /** The reply of a workspace `get`: either plain (its data is not read)
      or a stream of chunks. */
  datatype Reply = Plain(data: string) | Stream(chunks: seq<string>)

  /** A reply together with the clock reading when it completes. */
  datatype Fetch = Fetch(reply: Reply, at: int)

  /** The outcome of `getCache`: the new cache, the text handed to the
      callback, and whether the workspace was asked. */
  datatype Lookup = Lookup(cache: seq<Entry>, data: string, fetched: bool)

  predicate Matches(e: Entry, workspaceId: string, path: string) {
    e.workspaceId == workspaceId && e.path == path
  }

  /** Index of the first entry for (`workspaceId`, `path`), as the `every`
      scans in `getCache` and `cacheExists` find it. */
  function FindFirst(cache: seq<Entry>, workspaceId: string, path: string): (r: Option<nat>)
    ensures r.Some? ==> r.value < |cache| && Matches(cache[r.value], workspaceId, path)
    ensures r.Some? ==> forall j :: 0 <= j < r.value ==> !Matches(cache[j], workspaceId, path)
    ensures r.None? ==> forall j :: 0 <= j < |cache| ==> !Matches(cache[j], workspaceId, path)
    decreases |cache|
  {
    if |cache| == 0 then None
    else if Matches(cache[0], workspaceId, path) then Some(0)
    else
      match FindFirst(cache[1..], workspaceId, path)
      case None => None
      case Some(i) => Some(i + 1)
  }

  /** `cacheExists`: the first matching entry, or `None` (the source's
      `false`). It reads the cache and changes nothing. */
  function CacheExists(cache: seq<Entry>, workspaceId: string, path: string): (r: Option<Entry>)
    ensures r.Some? <==> exists i :: 0 <= i < |cache| && Matches(cache[i], workspaceId, path)
    ensures r.Some? ==> r.value in cache && Matches(r.value, workspaceId, path)
    ensures r.Some? ==> exists i :: 0 <= i < |cache| && cache[i] == r.value &&
                                    forall j :: 0 <= j < i ==> !Matches(cache[j], workspaceId, path)
  {
    match FindFirst(cache, workspaceId, path)
    case None => None
    case Some(i) => Some(cache[i])
  }

  /** `addCache`: one new entry stamped `now` at the end; nothing is
      removed, duplicates included. */
  function AddCache(cache: seq<Entry>, workspaceId: string, path: string, file: string, now: int): (r: seq<Entry>)
    ensures |r| == |cache| + 1 && r[..|cache|] == cache
    ensures r[|cache|] == Entry(workspaceId, path, file, now)
  {
    cache + [Entry(workspaceId, path, file, now)]
  }

  /** The chunks appended in arrival order. */
  function Concat(chunks: seq<string>): (file: string)
    decreases |chunks|
  {
    if |chunks| == 0 then "" else Concat(chunks[..|chunks| - 1]) + chunks[|chunks| - 1]
  }

  /** What a reply leaves in the accumulator: the streamed chunks, or the
      empty string for a plain reply. */
  function ReplyText(reply: Reply): string {
    match reply
    case Plain(_) => ""
    case Stream(chunks) => Concat(chunks)
  }

  /** `getCache`. A hit refreshes the first matching entry and hands over
      its data without asking the workspace; a miss asks, caches what
      arrived, and hands that over. */
  function GetCache(cache: seq<Entry>, workspaceId: string, path: string, now: int, fetch: Fetch): (r: Lookup)
    ensures r.fetched <==> CacheExists(cache, workspaceId, path).None?
    ensures !r.fetched ==>
              r.data == CacheExists(cache, workspaceId, path).value.data &&
              r.cache == cache[FindFirst(cache, workspaceId, path).value :=
                                 CacheExists(cache, workspaceId, path).value.(lastUsed := now)]
    ensures r.fetched ==>
              r.data == ReplyText(fetch.reply) &&
              r.cache == cache + [Entry(workspaceId, path, r.data, fetch.at)]
  {
    match FindFirst(cache, workspaceId, path)
    case Some(i) => Lookup(cache[i := cache[i].(lastUsed := now)], cache[i].data, false)
    case None =>
      var file := ReplyText(fetch.reply);
      Lookup(AddCache(cache, workspaceId, path, file, fetch.at), file, true)
  }

  /** Still fresh at `now`: used strictly after `now - Window`. */
  predicate Fresh(e: Entry, now: int) {
    e.lastUsed > now - Window
  }

  /** The filter of `checkCache` at clock reading `now`. */
  function Sweep(cache: seq<Entry>, now: int): (r: seq<Entry>)
    ensures |r| <= |cache|
    ensures forall e :: e in r ==> e in cache && Fresh(e, now)
    ensures forall e :: e in cache && Fresh(e, now) ==> e in r
    decreases |cache|
  {
    if |cache| == 0 then []
    else (if Fresh(cache[0], now) then [cache[0]] else []) + Sweep(cache[1..], now)
  }
}

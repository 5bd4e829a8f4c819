/** Properties of the content cache: how the chunks of a stream add up,
    how appending and refreshing affect later lookups, and how the sweep
    filters. */
module CacheFacts {
  import opened Optional
  import opened Cache

  /** Reading a stream in two parts gives the two texts one after the other. */
  lemma {:induction false} ConcatAppend(a: seq<string>, b: seq<string>)
    ensures Concat(a + b) == Concat(a) + Concat(b)
    decreases |b|
  {
    if |b| == 0 {
      assert a + b == a;
    } else {
      var b' := b[..|b| - 1];
      ConcatAppend(a, b');
      assert (a + b)[..|a + b| - 1] == a + b';
      assert (a + b)[|a + b| - 1] == b[|b| - 1];
    }
  }

  /** The first match in an extended cache is the first match of the old
      part, or else the new entry when it matches. */
  lemma {:induction false} FindFirstAppend(cache: seq<Entry>, e: Entry, workspaceId: string, path: string)
    ensures FindFirst(cache + [e], workspaceId, path) ==
            (if FindFirst(cache, workspaceId, path).Some? then FindFirst(cache, workspaceId, path)
             else if Matches(e, workspaceId, path) then Some(|cache|)
             else None)
    decreases |cache|
  {
    if |cache| > 0 {
      assert (cache + [e])[1..] == cache[1..] + [e];
      FindFirstAppend(cache[1..], e, workspaceId, path);
    }
  }

  /** `addCache` never hides an existing entry: a lookup still finds the
      first old match, and finds the new entry only when there was none. */
  lemma AddCacheShadowed(cache: seq<Entry>, workspaceId: string, path: string, file: string, now: int,
                         w: string, p: string)
    ensures CacheExists(AddCache(cache, workspaceId, path, file, now), w, p) ==
            (if CacheExists(cache, w, p).Some? then CacheExists(cache, w, p)
             else if w == workspaceId && p == path then Some(Entry(workspaceId, path, file, now))
             else None)
  {
    var e := Entry(workspaceId, path, file, now);
    FindFirstAppend(cache, e, w, p);
    assert AddCache(cache, workspaceId, path, file, now) == cache + [e];
  }

  /** Refreshing an entry's timestamp does not move any first match. */
  lemma {:induction false} FindFirstRefresh(cache: seq<Entry>, i: int, now: int, w: string, p: string)
    requires 0 <= i < |cache|
    ensures FindFirst(cache[i := cache[i].(lastUsed := now)], w, p) == FindFirst(cache, w, p)
    decreases |cache|
  {
    var c' := cache[i := cache[i].(lastUsed := now)];
    assert Matches(c'[0], w, p) == Matches(cache[0], w, p);
    if i > 0 {
      assert c'[1..] == cache[1..][i - 1 := cache[1..][i - 1].(lastUsed := now)];
      FindFirstRefresh(cache[1..], i - 1, now, w, p);
    } else {
      assert c'[1..] == cache[1..];
    }
  }

  /** A lookup of one key leaves what every other key finds unchanged. */
  lemma GetCacheLeavesOtherKeys(cache: seq<Entry>, workspaceId: string, path: string, now: int, fetch: Fetch,
                                w: string, p: string)
    requires w != workspaceId || p != path
    ensures CacheExists(GetCache(cache, workspaceId, path, now, fetch).cache, w, p) == CacheExists(cache, w, p)
  {
    match FindFirst(cache, workspaceId, path)
    case Some(i) =>
      var c' := cache[i := cache[i].(lastUsed := now)];
      FindFirstRefresh(cache, i, now, w, p);
      if FindFirst(cache, w, p).Some? {
        var j := FindFirst(cache, w, p).value;
        assert j != i;
        assert c'[j] == cache[j];
      }
    case None =>
      AddCacheShadowed(cache, workspaceId, path, ReplyText(fetch.reply), fetch.at, w, p);
  }

  /** Once looked up, a key is cached: a second lookup does not fetch and
      hands over the same text, whatever the workspace would now reply. */
  lemma SecondLookupHits(cache: seq<Entry>, workspaceId: string, path: string,
                         t1: int, f1: Fetch, t2: int, f2: Fetch)
    ensures var l1 := GetCache(cache, workspaceId, path, t1, f1);
            var l2 := GetCache(l1.cache, workspaceId, path, t2, f2);
            !l2.fetched && l2.data == l1.data
  {
    var l1 := GetCache(cache, workspaceId, path, t1, f1);
    match FindFirst(cache, workspaceId, path)
    case Some(i) =>
      FindFirstRefresh(cache, i, t1, workspaceId, path);
      assert l1.cache == cache[i := cache[i].(lastUsed := t1)];
    case None =>
      AddCacheShadowed(cache, workspaceId, path, ReplyText(f1.reply), f1.at, workspaceId, path);
  }

  /** The sweep keeps the survivors in their original order: it filters
      each part of a cache separately. */
  lemma {:induction false} SweepAppend(a: seq<Entry>, b: seq<Entry>, now: int)
    ensures Sweep(a + b, now) == Sweep(a, now) + Sweep(b, now)
    decreases |a|
  {
    if |a| == 0 {
      assert a + b == b;
    } else {
      assert (a + b)[0] == a[0];
      assert (a + b)[1..] == a[1..] + b;
      SweepAppend(a[1..], b, now);
    }
  }

  /** A second sweep at a later (or the same) time is the same as one
      sweep at that time. */
  lemma {:induction false} SweepLater(cache: seq<Entry>, t1: int, t2: int)
    requires t1 <= t2
    ensures Sweep(Sweep(cache, t1), t2) == Sweep(cache, t2)
    decreases |cache|
  {
    if |cache| > 0 {
      SweepLater(cache[1..], t1, t2);
      var head := if Fresh(cache[0], t1) then [cache[0]] else [];
      SweepAppend(head, Sweep(cache[1..], t1), t2);
    }
  }

  /** Sweeping twice at the same time changes nothing more. */
  lemma SweepIdempotent(cache: seq<Entry>, now: int)
    ensures Sweep(Sweep(cache, now), now) == Sweep(cache, now)
  {
    SweepLater(cache, now, now);
  }

  /** A sweep removes nothing exactly when every entry is still fresh. */
  lemma {:induction false} SweepKeepsAll(cache: seq<Entry>, now: int)
    ensures Sweep(cache, now) == cache <==> forall i :: 0 <= i < |cache| ==> Fresh(cache[i], now)
    decreases |cache|
  {
    if |cache| > 0 {
      SweepKeepsAll(cache[1..], now);
      if !Fresh(cache[0], now) {
        assert |Sweep(cache, now)| < |cache|;
      } else {
        assert Sweep(cache, now) == [cache[0]] + Sweep(cache[1..], now);
        assert cache == [cache[0]] + cache[1..];
        forall i | 1 <= i < |cache| ensures cache[1..][i - 1] == cache[i] { }
      }
    }
  }

  /** Entries of other keys in front of a cache do not change what a
      lookup finds. */
  lemma {:induction false} CacheExistsSkip(a: seq<Entry>, b: seq<Entry>, w: string, p: string)
    requires forall i :: 0 <= i < |a| ==> !Matches(a[i], w, p)
    ensures CacheExists(a + b, w, p) == CacheExists(b, w, p)
    decreases |a|
  {
    if |a| == 0 {
      assert a + b == b;
    } else {
      assert (a + b)[0] == a[0];
      assert (a + b)[1..] == a[1..] + b;
      CacheExistsSkip(a[1..], b, w, p);
    }
  }

  /** A key whose first entry is still fresh is found after the sweep,
      with the same entry. */
  lemma FreshKeySurvivesSweep(cache: seq<Entry>, w: string, p: string, now: int)
    requires CacheExists(cache, w, p).Some? && Fresh(CacheExists(cache, w, p).value, now)
    ensures CacheExists(Sweep(cache, now), w, p) == CacheExists(cache, w, p)
  {
    var i := FindFirst(cache, w, p).value;
    var pre, e, post := cache[..i], cache[i], cache[i + 1..];
    assert cache == pre + ([e] + post);
    SweepAppend(pre, [e] + post, now);
    SweepAppend([e], post, now);
    assert Sweep([e], now) == [e];
    forall j | 0 <= j < |Sweep(pre, now)| ensures !Matches(Sweep(pre, now)[j], w, p) {
      assert Sweep(pre, now)[j] in pre;
    }
    CacheExistsSkip(Sweep(pre, now), [e] + Sweep(post, now), w, p);
  }

  /** A document looked up at `t` stays cached, with the text that lookup
      handed over, by every sweep up to `Window` milliseconds after its
      stamp (`t` on a hit, the reply's arrival on a miss). */
  lemma LookedUpSurvivesSweep(cache: seq<Entry>, w: string, p: string, t: int, fetch: Fetch, now: int)
    requires now - Window < (if CacheExists(cache, w, p).Some? then t else fetch.at)
    ensures var l := GetCache(cache, w, p, t, fetch);
            CacheExists(Sweep(l.cache, now), w, p).Some? &&
            CacheExists(Sweep(l.cache, now), w, p).value.data == l.data
  {
    var l := GetCache(cache, w, p, t, fetch);
    if FindFirst(cache, w, p).Some? {
      var i := FindFirst(cache, w, p).value;
      FindFirstRefresh(cache, i, t, w, p);
      assert l.cache == cache[i := cache[i].(lastUsed := t)];
      assert CacheExists(l.cache, w, p) == Some(cache[i].(lastUsed := t));
    } else {
      AddCacheShadowed(cache, w, p, ReplyText(fetch.reply), fetch.at, w, p);
      assert CacheExists(l.cache, w, p) == Some(Entry(w, p, l.data, fetch.at));
    }
    FreshKeySurvivesSweep(l.cache, w, p, now);
  }
}

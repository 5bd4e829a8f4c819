/** The `compile` decision (extension.js:200-222): read the options of a
    document, resolve `out`, and either render, stop, or fetch the
    destination and compile it in turn.

    The chain as written keeps no record of the documents it has passed
    through, so it is modelled with explicit fuel: `OutOfFuel` stands for
    a chain that has not ended after that many steps. `CompileChecked` is
    the corrected chain, which remembers the documents it has visited and
    stops with `CycleDetected` on a repeat; it needs no fuel. */
module Compiler {
  import opened Optional
  import opened Paths
  import opened Options
  import opened Cache

  /** JavaScript truthiness of a directive value. */
  predicate Truthy(v: Value) {
    match v
    case Bool(b) => b
    case Null => false
    case Undefined => false
    case Number(n) => n != 0
    case Str(s) => s != ""
  }

  /** The pattern `\.(scss|sass)$`. */
  predicate IsSourceFile(path: string) {
    EndsWith(path, ".scss") || EndsWith(path, ".sass")
  }

  /** What one call of `compile` decides. `Throw` is the `TypeError` raised
      when a truthy `out` is not a string (`out.substr` is then not a
      function). */
  datatype Step = Stop | Throw | Render(dest: string) | Chain(dest: string)

  /** The `out` option of a document, if it has one. */
  function OutOption(doc: string): Option<Value> {
    var options := GetOptions(doc);
    if "out" in options then Some(options["out"]) else None
  }

  /** The decision of `compile` once the `out` option is read: nothing to
      do for a missing or falsy `out`, a throw for a truthy non-string, and
      otherwise the resolved destination, compiled next when it is itself
      a source document and rendered to when it is not. */
  function Decide(path: string, out: Option<Value>): (r: Step)
    ensures r == Throw <==> out.Some? && Truthy(out.value) && !out.value.Str?
    ensures r.Render? || r.Chain? ==>
              out.Some? && out.value.Str? && out.value.s != "" &&
              ParsePath(path, out.value.s, true) == Some(r.dest) && r.dest != path && r.dest != ""
    ensures (out.Some? && out.value.Str? && out.value.s != "" &&
             ParsePath(path, out.value.s, true).Some? && ParsePath(path, out.value.s, true).value != "")
            ==> r.Render? || r.Chain?
    ensures r.Render? ==> !IsSourceFile(r.dest)
    ensures r.Chain? ==> IsSourceFile(r.dest)
  {
    if out.None? || !Truthy(out.value) then Stop
    else if !out.value.Str? then Throw
    else
      match ParsePath(path, out.value.s, true)
      case None => Stop
      case Some(dest) =>
        if dest == "" then Stop
        else if IsSourceFile(dest) then Chain(dest)
        else Render(dest)
  }

  /** One call of `compile` on the document `doc` stored at `path`. */
  function CompileStep(path: string, doc: string): Step {
    Decide(path, OutOption(doc))
  }

  /** How a chain ends. `Rendered` names the document handed to the
      compiler and the destination it is written to. `Unanswered` is a
      fetch of a document the store does not hold: no reply ever comes. */
  datatype Outcome =
    | Rendered(source: string, doc: string, dest: string)
    | Stopped
    | Threw
    | Unanswered
    | OutOfFuel
    | CycleDetected

  datatype Run = Run(cache: seq<Entry>, outcome: Outcome)

  /** The reply the store gives for `path`; only read on a cache miss, and
      only for a path the store holds. */
  function FetchOf(store: map<string, Fetch>, path: string, now: int): Fetch {
    if path in store then store[path] else Fetch(Plain(""), now)
  }

  /** `after` is `before` with timestamps refreshed and new entries of
      `workspaceId` appended. */
  predicate Extends(before: seq<Entry>, after: seq<Entry>, workspaceId: string) {
    |after| >= |before| &&
    (forall i :: 0 <= i < |before| ==> after[i] == before[i].(lastUsed := after[i].lastUsed)) &&
    (forall i :: |before| <= i < |after| ==> after[i].workspaceId == workspaceId)
  }

  lemma ExtendsTrans(a: seq<Entry>, b: seq<Entry>, c: seq<Entry>, workspaceId: string)
    requires Extends(a, b, workspaceId) && Extends(b, c, workspaceId)
    ensures Extends(a, c, workspaceId)
  {
  }

  /** A lookup extends the cache. */
  lemma LookupExtends(cache: seq<Entry>, workspaceId: string, dest: string, now: int, fetch: Fetch)
    ensures Extends(cache, GetCache(cache, workspaceId, dest, now, fetch).cache, workspaceId)
  {
    var l := GetCache(cache, workspaceId, dest, now, fetch);
    if CacheExists(cache, workspaceId, dest).Some? {
      var i := FindFirst(cache, workspaceId, dest).value;
      forall j | 0 <= j < |cache| ensures l.cache[j] == cache[j].(lastUsed := l.cache[j].lastUsed) {
        if j == i {
          assert l.cache[j] == cache[j].(lastUsed := now);
        }
      }
    } else {
      var e := Entry(workspaceId, dest, l.data, fetch.at);
      assert l.cache == cache + [e];
      forall j | 0 <= j < |cache| ensures l.cache[j] == cache[j].(lastUsed := l.cache[j].lastUsed) {
        assert l.cache[j] == cache[j];
      }
      assert l.cache[|cache|] == e;
    }
  }

  /** Whatever extends the cache after a lookup extends the cache before
      it. */
  lemma ExtendsAfterLookup(cache: seq<Entry>, workspaceId: string, dest: string, now: int, fetch: Fetch,
                           after: seq<Entry>)
    ensures Extends(GetCache(cache, workspaceId, dest, now, fetch).cache, after, workspaceId) ==>
            Extends(cache, after, workspaceId)
  {
    LookupExtends(cache, workspaceId, dest, now, fetch);
    if Extends(GetCache(cache, workspaceId, dest, now, fetch).cache, after, workspaceId) {
      ExtendsTrans(cache, GetCache(cache, workspaceId, dest, now, fetch).cache, after, workspaceId);
    }
  }

  /** The chain as written: a chained destination is looked up through
      the cache and compiled next, with nothing to stop a chain that comes
      back to a document it has already passed. */
  function RunChain(decide: (string, string) -> Step, fuel: nat, cache: seq<Entry>, workspaceId: string,
                    path: string, doc: string, now: int, store: map<string, Fetch>): (r: Run)
    ensures r.outcome != CycleDetected
    ensures r.outcome.Rendered? ==> decide(r.outcome.source, r.outcome.doc) == Render(r.outcome.dest)
    ensures fuel > 0 && decide(path, doc).Render? ==> r.outcome == Rendered(path, doc, decide(path, doc).dest)
    ensures fuel > 0 && decide(path, doc) == Stop ==> r.outcome == Stopped
    ensures fuel > 0 && decide(path, doc) == Throw ==> r.outcome == Threw
    ensures fuel > 0 && !decide(path, doc).Chain? ==> r.cache == cache
    decreases fuel
  {
    if fuel == 0 then Run(cache, OutOfFuel)
    else
      match decide(path, doc)
      case Stop => Run(cache, Stopped)
      case Throw => Run(cache, Threw)
      case Render(dest) => Run(cache, Rendered(path, doc, dest))
      case Chain(dest) =>
        if CacheExists(cache, workspaceId, dest).None? && dest !in store then Run(cache, Unanswered)
        else
          var l := GetCache(cache, workspaceId, dest, now, FetchOf(store, dest, now));
          RunChain(decide, fuel - 1, l.cache, workspaceId, dest, l.data, now, store)
  }

  /** The step at `path` chains to a document the cache or the store
      holds, so the chain goes on. */
  predicate Continues(decide: (string, string) -> Step, cache: seq<Entry>, workspaceId: string,
                      path: string, doc: string, store: map<string, Fetch>) {
    decide(path, doc).Chain? &&
    (CacheExists(cache, workspaceId, decide(path, doc).dest).Some? || decide(path, doc).dest in store)
  }

  /** One step of the chain that follows a `Chain`. */
  lemma ChainStep(decide: (string, string) -> Step, fuel: nat, cache: seq<Entry>,
                  workspaceId: string, path: string, doc: string, now: int, store: map<string, Fetch>)
    requires fuel > 0 && Continues(decide, cache, workspaceId, path, doc, store)
    ensures var dest := decide(path, doc).dest;
            var l := GetCache(cache, workspaceId, dest, now, FetchOf(store, dest, now));
            RunChain(decide, fuel, cache, workspaceId, path, doc, now, store) ==
            RunChain(decide, fuel - 1, l.cache, workspaceId, dest, l.data, now, store)
  {
  }

  /** A chain only refreshes timestamps and appends source documents of
      its own workspace: nothing cached is lost or altered. */
  lemma {:induction false} RunChainExtends(decide: (string, string) -> Step, fuel: nat, cache: seq<Entry>,
                                           workspaceId: string, path: string, doc: string,
                                           now: int, store: map<string, Fetch>, r: Run)
    requires r == RunChain(decide, fuel, cache, workspaceId, path, doc, now, store)
    ensures Extends(cache, r.cache, workspaceId)
    decreases fuel
  {
    if fuel > 0 && Continues(decide, cache, workspaceId, path, doc, store) {
      var dest := decide(path, doc).dest;
      var l := GetCache(cache, workspaceId, dest, now, FetchOf(store, dest, now));
      var r' := RunChain(decide, fuel - 1, l.cache, workspaceId, dest, l.data, now, store);
      ChainStep(decide, fuel, cache, workspaceId, path, doc, now, store);
      RunChainExtends(decide, fuel - 1, l.cache, workspaceId, dest, l.data, now, store, r');
      ExtendsAfterLookup(cache, workspaceId, dest, now, FetchOf(store, dest, now), r'.cache);
    }
  }

  /** `compile` as written, run for at most `fuel` steps. */
  function Compile(fuel: nat, cache: seq<Entry>, workspaceId: string, path: string, doc: string,
                   now: int, store: map<string, Fetch>): (r: Run)
    ensures r.outcome != CycleDetected
    ensures r.outcome.Rendered? ==>
              CompileStep(r.outcome.source, r.outcome.doc) == Render(r.outcome.dest) &&
              r.outcome.dest != r.outcome.source && !IsSourceFile(r.outcome.dest)
    ensures Extends(cache, r.cache, workspaceId)
    ensures fuel > 0 && CompileStep(path, doc).Render? ==>
              r.outcome == Rendered(path, doc, CompileStep(path, doc).dest)
    ensures fuel > 0 && CompileStep(path, doc) == Stop ==> r.outcome == Stopped
    ensures fuel > 0 && CompileStep(path, doc) == Throw ==> r.outcome == Threw
    ensures fuel > 0 && !CompileStep(path, doc).Chain? ==> r.cache == cache
  {
    var r := RunChain(CompileStep, fuel, cache, workspaceId, path, doc, now, store);
    RunChainExtends(CompileStep, fuel, cache, workspaceId, path, doc, now, store, r);
    r
  }

  // ---------------------------------------------------------------------
  // The corrected chain
  // ---------------------------------------------------------------------

  /** The documents a chain in `workspaceId` can still reach: those the
      store holds and those already cached for the workspace. A finite set,
      so a chain that never repeats a document must end. */
  function Known(cache: seq<Entry>, workspaceId: string, store: map<string, Fetch>): set<string> {
    store.Keys + set e | e in cache && e.workspaceId == workspaceId :: e.path
  }

  /** A lookup of a document the cache or the store has adds no new
      document to `Known`, and that document is in it. */
  lemma KnownAfterLookup(cache: seq<Entry>, workspaceId: string, dest: string, now: int, store: map<string, Fetch>)
    requires CacheExists(cache, workspaceId, dest).Some? || dest in store
    ensures dest in Known(cache, workspaceId, store)
    ensures Known(GetCache(cache, workspaceId, dest, now, FetchOf(store, dest, now)).cache, workspaceId, store)
            <= Known(cache, workspaceId, store)
  {
    var l := GetCache(cache, workspaceId, dest, now, FetchOf(store, dest, now));
    if CacheExists(cache, workspaceId, dest).Some? {
      var e := CacheExists(cache, workspaceId, dest).value;
      assert e in cache && e.workspaceId == workspaceId;
      var i := FindFirst(cache, workspaceId, dest).value;
      forall x | x in l.cache ensures x.workspaceId == workspaceId ==> x.path in Known(cache, workspaceId, store) {
        var j :| 0 <= j < |l.cache| && l.cache[j] == x;
        if j != i {
          assert cache[j] == x;
        } else {
          assert cache[i] in cache;
        }
      }
    } else {
      forall x | x in l.cache ensures x.workspaceId == workspaceId ==> x.path in Known(cache, workspaceId, store) {
        var j :| 0 <= j < |l.cache| && l.cache[j] == x;
        if j < |cache| {
          assert cache[j] == x;
        }
      }
    }
  }

  /** Removing a fresh element of `a` from what is left shrinks it. */
  lemma RemainingShrinks(a': set<string>, a: set<string>, visited: set<string>, d: string)
    requires a' <= a && d in a && d !in visited
    ensures |a' - (visited + {d})| < |a - visited|
  {
    var x := a' - (visited + {d});
    var y := a - visited;
    assert x <= y - {d};
    assert |y - {d}| == |y| - 1;
    SubsetCard(x, y - {d});
  }

  lemma {:induction false} SubsetCard(x: set<string>, y: set<string>)
    requires x <= y
    ensures |x| <= |y|
    decreases |y|
  {
    if x != {} {
      var e :| e in x;
      SubsetCard(x - {e}, y - {e});
    }
  }

  /** The chain with the cycle guard: `visited` holds the documents of the
      chain so far, the current one included. */
  function RunGuarded(decide: (string, string) -> Step, visited: set<string>, cache: seq<Entry>,
                      workspaceId: string, path: string, doc: string, now: int, store: map<string, Fetch>): (r: Run)
    ensures r.outcome != OutOfFuel
    ensures r.outcome.Rendered? ==> decide(r.outcome.source, r.outcome.doc) == Render(r.outcome.dest)
    ensures r.outcome.Rendered? ==> r.outcome.source == path || r.outcome.source !in visited
    ensures decide(path, doc).Render? ==> r.outcome == Rendered(path, doc, decide(path, doc).dest)
    ensures decide(path, doc) == Stop ==> r.outcome == Stopped
    ensures decide(path, doc) == Throw ==> r.outcome == Threw
    ensures !decide(path, doc).Chain? ==> r.cache == cache
    decreases |Known(cache, workspaceId, store) - visited|
  {
    match decide(path, doc)
    case Stop => Run(cache, Stopped)
    case Throw => Run(cache, Threw)
    case Render(dest) => Run(cache, Rendered(path, doc, dest))
    case Chain(dest) =>
      if dest in visited then Run(cache, CycleDetected)
      else if CacheExists(cache, workspaceId, dest).None? && dest !in store then Run(cache, Unanswered)
      else
        var l := GetCache(cache, workspaceId, dest, now, FetchOf(store, dest, now));
        KnownAfterLookup(cache, workspaceId, dest, now, store);
        RemainingShrinks(Known(l.cache, workspaceId, store), Known(cache, workspaceId, store), visited, dest);
        RunGuarded(decide, visited + {dest}, l.cache, workspaceId, dest, l.data, now, store)
  }

  /** One step of the guarded chain that follows a `Chain`. */
  lemma GuardedChainStep(decide: (string, string) -> Step, visited: set<string>, cache: seq<Entry>,
                         workspaceId: string, path: string, doc: string, now: int, store: map<string, Fetch>)
    requires Continues(decide, cache, workspaceId, path, doc, store) && decide(path, doc).dest !in visited
    ensures var dest := decide(path, doc).dest;
            var l := GetCache(cache, workspaceId, dest, now, FetchOf(store, dest, now));
            RunGuarded(decide, visited, cache, workspaceId, path, doc, now, store) ==
            RunGuarded(decide, visited + {dest}, l.cache, workspaceId, dest, l.data, now, store)
  {
  }

  /** The guarded chain, too, loses and alters nothing cached. */
  lemma RunGuardedExtends(decide: (string, string) -> Step, visited: set<string>, cache: seq<Entry>,
                          workspaceId: string, path: string, doc: string, now: int, store: map<string, Fetch>)
    ensures Extends(cache, RunGuarded(decide, visited, cache, workspaceId, path, doc, now, store).cache, workspaceId)
    decreases |Known(cache, workspaceId, store) - visited|
  {
    if Continues(decide, cache, workspaceId, path, doc, store) && decide(path, doc).dest !in visited {
      var dest := decide(path, doc).dest;
      var l := GetCache(cache, workspaceId, dest, now, FetchOf(store, dest, now));
      KnownAfterLookup(cache, workspaceId, dest, now, store);
      RemainingShrinks(Known(l.cache, workspaceId, store), Known(cache, workspaceId, store), visited, dest);
      var r := RunGuarded(decide, visited + {dest}, l.cache, workspaceId, dest, l.data, now, store);
      GuardedChainStep(decide, visited, cache, workspaceId, path, doc, now, store);
      RunGuardedExtends(decide, visited + {dest}, l.cache, workspaceId, dest, l.data, now, store);
      ExtendsAfterLookup(cache, workspaceId, dest, now, FetchOf(store, dest, now), r.cache);
    }
  }

  /** The corrected `compile`: it ends on every input, with no fuel. */
  function CompileChecked(cache: seq<Entry>, workspaceId: string, path: string, doc: string,
                          now: int, store: map<string, Fetch>): (r: Run)
    ensures r.outcome != OutOfFuel
    ensures r.outcome.Rendered? ==>
              CompileStep(r.outcome.source, r.outcome.doc) == Render(r.outcome.dest) &&
              r.outcome.dest != r.outcome.source && !IsSourceFile(r.outcome.dest)
    ensures Extends(cache, r.cache, workspaceId)
    ensures CompileStep(path, doc).Render? ==> r.outcome == Rendered(path, doc, CompileStep(path, doc).dest)
    ensures CompileStep(path, doc) == Stop ==> r.outcome == Stopped
    ensures CompileStep(path, doc) == Throw ==> r.outcome == Threw
    ensures !CompileStep(path, doc).Chain? ==> r.cache == cache
  {
    RunGuardedExtends(CompileStep, {path}, cache, workspaceId, path, doc, now, store);
    RunGuarded(CompileStep, {path}, cache, workspaceId, path, doc, now, store)
  }
}
